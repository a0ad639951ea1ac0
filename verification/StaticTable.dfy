/** Header lines, and the static table of HPACK. */
module StaticTable {
  import opened Wire

  datatype Header = Header(name: Bytes, value: Bytes)

  const STATIC_ENTRIES: nat := 61

  function Named(name: string, value: string): Header {
    Header(Ascii(name), Ascii(value))
  }

  function StaticRow0(i: nat): Header {
    match i
    case 0 => Named(":authority", "")
    case 1 => Named(":method", "GET")
    case 2 => Named(":method", "POST")
    case 3 => Named(":path", "/")
    case 4 => Named(":path", "/index.html")
    case 5 => Named(":scheme", "http")
    case 6 => Named(":scheme", "https")
    case 7 => Named(":status", "200")
    case _ => Named("", "")
  }

  function StaticRow1(i: nat): Header {
    match i
    case 8 => Named(":status", "204")
    case 9 => Named(":status", "206")
    case 10 => Named(":status", "304")
    case 11 => Named(":status", "400")
    case 12 => Named(":status", "404")
    case 13 => Named(":status", "500")
    case 14 => Named("accept-charset", "")
    case 15 => Named("accept-encoding", "gzip, deflate")
    case _ => Named("", "")
  }

  function StaticRow2(i: nat): Header {
    match i
    case 16 => Named("accept-language", "")
    case 17 => Named("accept-ranges", "")
    case 18 => Named("accept", "")
    case 19 => Named("access-control-allow-origin", "")
    case 20 => Named("age", "")
    case 21 => Named("allow", "")
    case 22 => Named("authorization", "")
    case 23 => Named("cache-control", "")
    case _ => Named("", "")
  }

  function StaticRow3(i: nat): Header {
    match i
    case 24 => Named("content-disposition", "")
    case 25 => Named("content-encoding", "")
    case 26 => Named("content-language", "")
    case 27 => Named("content-length", "")
    case 28 => Named("content-location", "")
    case 29 => Named("content-range", "")
    case 30 => Named("content-type", "")
    case 31 => Named("cookie", "")
    case _ => Named("", "")
  }

  function StaticRow4(i: nat): Header {
    match i
    case 32 => Named("date", "")
    case 33 => Named("etag", "")
    case 34 => Named("expect", "")
    case 35 => Named("expires", "")
    case 36 => Named("from", "")
    case 37 => Named("host", "")
    case 38 => Named("if-match", "")
    case 39 => Named("if-modified-since", "")
    case _ => Named("", "")
  }

  function StaticRow5(i: nat): Header {
    match i
    case 40 => Named("if-none-match", "")
    case 41 => Named("if-range", "")
    case 42 => Named("if-unmodified-since", "")
    case 43 => Named("last-modified", "")
    case 44 => Named("link", "")
    case 45 => Named("location", "")
    case 46 => Named("max-forwards", "")
    case 47 => Named("proxy-authenticate", "")
    case _ => Named("", "")
  }

  function StaticRow6(i: nat): Header {
    match i
    case 48 => Named("proxy-authorization", "")
    case 49 => Named("range", "")
    case 50 => Named("referer", "")
    case 51 => Named("refresh", "")
    case 52 => Named("retry-after", "")
    case 53 => Named("server", "")
    case 54 => Named("set-cookie", "")
    case 55 => Named("strict-transport-security", "")
    case _ => Named("", "")
  }

  function StaticRow7(i: nat): Header {
    match i
    case 56 => Named("transfer-encoding", "")
    case 57 => Named("user-agent", "")
    case 58 => Named("vary", "")
    case 59 => Named("via", "")
    case 60 => Named("www-authenticate", "")
    case _ => Named("", "")
  }

  /** STATIC_TABLE, from zero (Appendix A of RFC 7541). */
  function StaticHeader(i: nat): Header {
    match i / 8
    case 0 => StaticRow0(i)
    case 1 => StaticRow1(i)
    case 2 => StaticRow2(i)
    case 3 => StaticRow3(i)
    case 4 => StaticRow4(i)
    case 5 => StaticRow5(i)
    case 6 => StaticRow6(i)
    case _ => StaticRow7(i)
  }
}
