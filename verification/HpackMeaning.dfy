/** What a field block means (sections 2.3.3, 3.2 and 6 of RFC 7541), told without the code's own processing. */
module HpackMeaning {
  import opened Wire
  import HpackInt
  import HpackString
  import opened HpackField
  import opened StaticTable
  import opened HpackState

  // Appendix A of RFC 7541.

  predicate Says(h: Option<Header>, name: string, value: string) {
    h == Some(Header(Ascii(name), Ascii(value)))
  }

  lemma Entries1To15(s: State)
    ensures Says(Lookup(s, 1), ":authority", "")
    ensures Says(Lookup(s, 2), ":method", "GET")
    ensures Says(Lookup(s, 3), ":method", "POST")
    ensures Says(Lookup(s, 4), ":path", "/")
    ensures Says(Lookup(s, 5), ":path", "/index.html")
    ensures Says(Lookup(s, 6), ":scheme", "http")
    ensures Says(Lookup(s, 7), ":scheme", "https")
    ensures Says(Lookup(s, 8), ":status", "200")
    ensures Says(Lookup(s, 9), ":status", "204")
    ensures Says(Lookup(s, 10), ":status", "206")
    ensures Says(Lookup(s, 11), ":status", "304")
    ensures Says(Lookup(s, 12), ":status", "400")
    ensures Says(Lookup(s, 13), ":status", "404")
    ensures Says(Lookup(s, 14), ":status", "500")
    ensures Says(Lookup(s, 15), "accept-charset", "")
  {}

  lemma Entries16To30(s: State)
    ensures Says(Lookup(s, 16), "accept-encoding", "gzip, deflate")
    ensures Says(Lookup(s, 17), "accept-language", "")
    ensures Says(Lookup(s, 18), "accept-ranges", "")
    ensures Says(Lookup(s, 19), "accept", "")
    ensures Says(Lookup(s, 20), "access-control-allow-origin", "")
    ensures Says(Lookup(s, 21), "age", "")
    ensures Says(Lookup(s, 22), "allow", "")
    ensures Says(Lookup(s, 23), "authorization", "")
    ensures Says(Lookup(s, 24), "cache-control", "")
    ensures Says(Lookup(s, 25), "content-disposition", "")
    ensures Says(Lookup(s, 26), "content-encoding", "")
    ensures Says(Lookup(s, 27), "content-language", "")
    ensures Says(Lookup(s, 28), "content-length", "")
    ensures Says(Lookup(s, 29), "content-location", "")
    ensures Says(Lookup(s, 30), "content-range", "")
  {}

  lemma Entries31To45(s: State)
    ensures Says(Lookup(s, 31), "content-type", "")
    ensures Says(Lookup(s, 32), "cookie", "")
    ensures Says(Lookup(s, 33), "date", "")
    ensures Says(Lookup(s, 34), "etag", "")
    ensures Says(Lookup(s, 35), "expect", "")
    ensures Says(Lookup(s, 36), "expires", "")
    ensures Says(Lookup(s, 37), "from", "")
    ensures Says(Lookup(s, 38), "host", "")
    ensures Says(Lookup(s, 39), "if-match", "")
    ensures Says(Lookup(s, 40), "if-modified-since", "")
    ensures Says(Lookup(s, 41), "if-none-match", "")
    ensures Says(Lookup(s, 42), "if-range", "")
    ensures Says(Lookup(s, 43), "if-unmodified-since", "")
    ensures Says(Lookup(s, 44), "last-modified", "")
    ensures Says(Lookup(s, 45), "link", "")
  {}

  lemma Entries46To61(s: State)
    ensures Says(Lookup(s, 46), "location", "")
    ensures Says(Lookup(s, 47), "max-forwards", "")
    ensures Says(Lookup(s, 48), "proxy-authenticate", "")
    ensures Says(Lookup(s, 49), "proxy-authorization", "")
    ensures Says(Lookup(s, 50), "range", "")
    ensures Says(Lookup(s, 51), "referer", "")
    ensures Says(Lookup(s, 52), "refresh", "")
    ensures Says(Lookup(s, 53), "retry-after", "")
    ensures Says(Lookup(s, 54), "server", "")
    ensures Says(Lookup(s, 55), "set-cookie", "")
    ensures Says(Lookup(s, 56), "strict-transport-security", "")
    ensures Says(Lookup(s, 57), "transfer-encoding", "")
    ensures Says(Lookup(s, 58), "user-agent", "")
    ensures Says(Lookup(s, 59), "vary", "")
    ensures Says(Lookup(s, 60), "via", "")
    ensures Says(Lookup(s, 61), "www-authenticate", "")
  {}

  /** The static entries and the dynamic table as one list, the address space of section 2.3.3. */
  function AddressSpace(s: State): (r: seq<Header>)
    ensures |r| == 61 + |s.table|
  {
    seq(61, i requires 0 <= i < 61 => StaticHeader(i)) + s.table
  }

  /** Index `i` is entry `i - 1` of the address space, and there is no other index. */
  lemma LookupIsAddress(s: State, i: nat)
    ensures Lookup(s, i) == if 1 <= i <= |AddressSpace(s)| then Some(AddressSpace(s)[i - 1]) else None
  {}

  // Sizes.

  function Names(table: seq<Header>): (r: seq<Bytes>) {
    if table == [] then [] else [table[0].name] + Names(table[1..])
  }

  function Values(table: seq<Header>): (r: seq<Bytes>) {
    if table == [] then [] else [table[0].value] + Values(table[1..])
  }

  /** The size of a table (section 4.1): the octets of its names and values, and 32 for each entry. */
  lemma {:induction false} SizeOfTable(table: seq<Header>)
    ensures TableSize(table) == |Join(Names(table))| + |Join(Values(table))| + 32 * |table|
  {
    if table != [] {
      SizeOfTable(table[1..]);
      assert Names(table)[1..] == Names(table[1..]) && Values(table)[1..] == Values(table[1..]);
    }
  }

  // Fields.

  /** A field denotes a header line in a state. */
  predicate Denotes(s: State, f: Field, h: Header) {
    match f
    case Indexed(index) => 1 <= index.val <= |AddressSpace(s)| && h == AddressSpace(s)[index.val - 1]
    case Partial(index, val, _) =>
      1 <= index.val <= |AddressSpace(s)| && h.name == AddressSpace(s)[index.val - 1].name && h.value == val.data
    case Literal(key, val, _) => h.name == key.data && h.value == val.data
    case SizeUpdate(_) => false
  }

  /** Only cached fields that are not indexed add their line (sections 6.2.1 to 6.2.3), as section 4.4 says. */
  function Added(s: State, f: Field, h: Header): (r: State) {
    match f
    case Partial(_, _, Cached) => StandardInsert(s, h)
    case Literal(_, _, Cached) => StandardInsert(s, h)
    case _ => s
  }

  /** The largest newest part of the table that fits (section 4.3). */
  predicate IsFitting(table: seq<Header>, capacity: nat, kept: seq<Header>) {
    && kept <= table
    && TableSize(kept) <= capacity
    && (|kept| < |table| ==> TableSize(table[..|kept| + 1]) > capacity)
  }

  lemma FittingIsEvicted(table: seq<Header>, capacity: nat, kept: seq<Header>)
    ensures IsFitting(table, capacity, kept) <==> kept == Evict(table, capacity)
  {
    var evicted := Evict(table, capacity);
    if |evicted| < |table| {
      EvictKeeps(table, capacity, |evicted|);
    }
    if IsFitting(table, capacity, kept) {
      if |kept| < |table| {
        EvictKeeps(table, capacity, |kept|);
      }
      if |kept| > 0 {
        EvictKeeps(table, capacity, |kept| - 1);
        assert table[..|kept| - 1 + 1] == kept;
      }
    }
  }

  /** `fields` decode in state `s` to `headers`, leaving state `t`. */
  ghost predicate Decodes(s: State, fields: seq<Field>, headers: seq<Header>, t: State)
    decreases |fields|
  {
    if fields == [] then headers == [] && t == s
    else
      match fields[0]
      case SizeUpdate(size) =>
        && size.val <= s.max
        && exists kept :: IsFitting(s.table, size.val, kept)
                          && Decodes(State(size.val, s.max, kept), fields[1..], headers, t)
      case f =>
        headers != [] && Denotes(s, f, headers[0]) && Decodes(Added(s, f, headers[0]), fields[1..], headers[1..], t)
  }

  lemma FieldYieldsItsLine(s: State, f: Field, h: Header)
    requires !f.SizeUpdate?
    ensures ProcessField(s, f).headers == Some([h]) <==> Denotes(s, f, h)
    ensures Denotes(s, f, h) ==> ProcessField(s, f) == Result(Added(s, f, h), Some([h]))
  {
    match f
    case Indexed(index) => LookupIsAddress(s, index.val);
    case Partial(index, _, _) =>
      LookupIsAddress(s, index.val);
      InsertIsStandard(s, h);
    case Literal(_, _, _) => InsertIsStandard(s, h);
  }

  lemma FieldYieldsAtMostOne(s: State, f: Field)
    ensures ProcessField(s, f).headers.Some? ==> |ProcessField(s, f).headers.value| == if f.SizeUpdate? then 0 else 1
  {}

  lemma UpdateYieldsNothing(s: State, f: Field)
    requires f.SizeUpdate?
    ensures var kept := Evict(s.table, f.size.val);
            ProcessField(s, f) == Result(State(f.size.val, s.max, kept), if f.size.val <= s.max then Some([]) else None)
  {}

  /** Processing a block succeeds with `headers` and a state exactly when the block decodes to them. */
  lemma {:induction false} BlockMeans(s: State, fields: seq<Field>, headers: seq<Header>, t: State)
    ensures ProcessBlock(s, fields) == Result(t, Some(headers)) <==> Decodes(s, fields, headers, t)
    decreases |fields|
  {
    if fields != [] {
      if fields[0].SizeUpdate? {
        UpdateMeans(s, fields, headers, t);
      } else {
        LineMeans(s, fields, headers, t);
      }
    }
  }

  lemma UpdateMeans(s: State, fields: seq<Field>, headers: seq<Header>, t: State)
    requires fields != [] && fields[0].SizeUpdate?
    ensures ProcessBlock(s, fields) == Result(t, Some(headers)) <==> Decodes(s, fields, headers, t)
    decreases |fields|, 0
  {
    var size := fields[0].size.val;
    var kept := Evict(s.table, size);
    UpdateYieldsNothing(s, fields[0]);
    BlockMeans(State(size, s.max, kept), fields[1..], headers, t);
    FittingIsEvicted(s.table, size, kept);
    forall other | IsFitting(s.table, size, other)
      ensures other == kept
    {
      FittingIsEvicted(s.table, size, other);
    }
    PrependNothing(ProcessBlock(State(size, s.max, kept), fields[1..]));
  }

  lemma LineMeans(s: State, fields: seq<Field>, headers: seq<Header>, t: State)
    requires fields != [] && !fields[0].SizeUpdate?
    ensures ProcessBlock(s, fields) == Result(t, Some(headers)) <==> Decodes(s, fields, headers, t)
    decreases |fields|, 1
  {
    var first := ProcessField(s, fields[0]);
    FieldYieldsAtMostOne(s, fields[0]);
    if first.headers.Some? {
      var h := first.headers.value[0];
      assert first.headers.value == [h];
      FieldYieldsItsLine(s, fields[0], h);
      BlockMeansBehind(s, fields, h, headers, t);
    } else if headers != [] {
      FieldYieldsItsLine(s, fields[0], headers[0]);
    }
  }

  lemma BlockMeansBehind(s: State, fields: seq<Field>, h: Header, headers: seq<Header>, t: State)
    requires fields != [] && !fields[0].SizeUpdate?
    requires ProcessField(s, fields[0]) == Result(Added(s, fields[0], h), Some([h])) && Denotes(s, fields[0], h)
    ensures ProcessBlock(s, fields) == Result(t, Some(headers)) <==> Decodes(s, fields, headers, t)
    decreases |fields|, 0
  {
    if headers != [] {
      FieldYieldsItsLine(s, fields[0], headers[0]);
      BlockMeans(Added(s, fields[0], h), fields[1..], headers[1..], t);
      assert headers == [headers[0]] + headers[1..];
    }
  }

  /** The block 82 says `:method: GET` in every state. */
  lemma MethodGet(code: HpackString.Table, s: State)
    ensures ParseBlock(code, [0x82]) == Some([Indexed(HpackInt.PrefixInt(2))])
    ensures ProcessBlock(s, [Indexed(HpackInt.PrefixInt(2))]) == Result(s, Some([Header(Ascii(":method"), Ascii("GET"))]))
  {
    var f, h := Indexed(HpackInt.PrefixInt(2)), Header(Ascii(":method"), Ascii("GET"));
    PrefixPowers();
    assert ParseField(code, [0x82]) == Parse.Parsed(f, []);
    assert [f] + [] == [f];
    Entries1To15(s);
    assert ProcessField(s, f) == Result(s, Some([h]));
    assert [f][1..] == [] && [h] + [] == [h];
  }
}
