/** `http/firstline.cc` and `http/headerfield.cc`: start lines and the header map, as text and back. */
module HttpMessage {
  import opened Wrappers
  import opened StrUtil
  import opened Numbers

  const CRLF: string := "\r\n"
  const CRLF2: string := "\r\n\r\n"

  datatype Method = UnknownMethod | GET | POST | DELETE
  datatype Version = UnknownVersion | Http09 | Http10 | Http11 | Http20

  function MethodText(m: Method): string {
    match m
    case UnknownMethod => "unknown"
    case GET => "GET"
    case POST => "POST"
    case DELETE => "DELETE"
  }

  function VersionText(v: Version): string {
    match v
    case UnknownVersion => "unknown"
    case Http09 => "HTTP/0.9"
    case Http10 => "HTTP/1.0"
    case Http11 => "HTTP/1.1"
    case Http20 => "HTTP/2.0"
  }

  /** `GetHttpMethod`. */
  function MethodOf(s: string): Method {
    if s == "GET" then GET else if s == "POST" then POST else if s == "DELETE" then DELETE else UnknownMethod
  }

  /** `GetHttpVersion`. */
  function VersionOf(s: string): Version {
    if s == "HTTP/0.9" then Http09
    else if s == "HTTP/1.0" then Http10
    else if s == "HTTP/1.1" then Http11
    else if s == "HTTP/2.0" then Http20
    else UnknownVersion
  }

  datatype Kind = Request | Response

  datatype StartLine =
    | RequestLine(verb: Method, url: string, version: Version)
    | StatusLine(version: Version, code: int, desc: string)

  /** The state of a line object before anything is parsed into it. */
  function DefaultLine(kind: Kind): StartLine {
    if kind.Request? then RequestLine(POST, [], Http11) else StatusLine(Http11, 200, [])
  }

  /** `ToString` without the line end; `%u` prints a negative code modulo 2^32, in three characters. */
  function LineText(l: StartLine): string {
    match l
    case RequestLine(m, u, v) => Join([MethodText(m), u, VersionText(v)], " ")
    case StatusLine(v, c, d) => Join([VersionText(v), Printed(c % 0x1_0000_0000, 3), d], " ")
  }

  /** `ParseFromString` returned true, returned false, or let an exception of `std::stoi` through. */
  datatype LineResult = Accepted(line: StartLine) | Rejected(line: StartLine) | Threw(line: StartLine)

  function ParseLine(kind: Kind, text: string): LineResult {
    var res := Split(text, " ");
    if |res| != 3 then Rejected(DefaultLine(kind))
    else if kind.Request? then Accepted(RequestLine(MethodOf(res[0]), res[1], VersionOf(res[2])))
    else
      var line := StatusLine(VersionOf(res[0]), 200, res[2]);
      match Stoi(res[1])
      case None => Threw(line)
      case Some(c) => if 0 <= c <= 1000 then Accepted(line.(code := c)) else Rejected(line.(code := c))
  }

  // -- The header map: `std::map` as the sorted list of its entries --

  /** The order of `std::string` keys. */
  predicate Less(a: string, b: string) {
    if b == [] then false
    else if a == [] then true
    else if a[0] != b[0] then a[0] < b[0]
    else Less(a[1..], b[1..])
  }

  lemma {:induction false} LessTotal(a: string, b: string)
    ensures a == b || Less(a, b) || Less(b, a)
    ensures !(Less(a, b) && Less(b, a)) && !Less(a, a)
  {
    if a != [] && b != [] {
      assert a == [a[0]] + a[1..] && b == [b[0]] + b[1..];
      LessTotal(a[1..], b[1..]);
      LessTotal(a[1..], a[1..]);
    } else if a != [] {
      LessTotal(a[1..], a[1..]);
    }
  }

  lemma {:induction false} LessTransitive(a: string, b: string, c: string)
    requires Less(a, b) && Less(b, c)
    ensures Less(a, c)
  {
    if a != [] && a[0] == b[0] == c[0] {
      LessTransitive(a[1..], b[1..], c[1..]);
    }
  }

  /** The order is that of a dictionary: the first difference decides, and a prefix comes first. */
  lemma {:induction false} LessIsDictionary(common: string, x: char, y: char, a: string, b: string)
    ensures Less(common + [x] + a, common + [y] + b) <==> x < y || (x == y && Less(a, b))
    ensures Less(common, common + [y] + b)
  {
    if common == [] {
      assert ([x] + a)[1..] == a && ([y] + b)[1..] == b;
    } else {
      var rest := common[1..];
      LessIsDictionary(rest, x, y, a, b);
      assert (common + [x] + a)[1..] == rest + [x] + a;
      assert (common + [y] + b)[1..] == rest + [y] + b;
    }
  }

  type Entry = (string, string)

  ghost predicate Sorted(h: seq<Entry>) {
    forall i, j :: 0 <= i < j < |h| ==> Less(h[i].0, h[j].0)
  }

  function ToMap(h: seq<Entry>): map<string, string> {
    if h == [] then map[] else ToMap(h[1..])[h[0].0 := h[0].1]
  }

  /** `InsertOrUpdate`. */
  function Insert(h: seq<Entry>, key: string, value: string): seq<Entry> {
    if h == [] then [(key, value)]
    else if h[0].0 == key then [(key, value)] + h[1..]
    else if Less(key, h[0].0) then [(key, value)] + h
    else [h[0]] + Insert(h[1..], key, value)
  }

  lemma {:induction false} InsertMembers(h: seq<Entry>, key: string, value: string)
    ensures forall i :: 0 <= i < |Insert(h, key, value)| ==>
              Insert(h, key, value)[i] == (key, value) || Insert(h, key, value)[i] in h
  {
    if h != [] { InsertMembers(h[1..], key, value); }
  }

  /** Inserting keeps the keys in order. */
  lemma {:induction false} InsertKeepsOrder(h: seq<Entry>, key: string, value: string)
    requires Sorted(h)
    ensures Sorted(Insert(h, key, value))
  {
    if h != [] {
      LessTotal(key, h[0].0);
      if h[0].0 != key && Less(key, h[0].0) {
        forall i | 0 <= i < |h|
          ensures Less(key, h[i].0)
        {
          if i > 0 { LessTransitive(key, h[0].0, h[i].0); }
        }
      } else if h[0].0 != key {
        var t := h[1..];
        InsertKeepsOrder(t, key, value);
        InsertMembers(t, key, value);
        var r := Insert(t, key, value);
        forall i | 0 <= i < |r|
          ensures Less(h[0].0, r[i].0)
        {
          if r[i] != (key, value) {
            var k :| 0 <= k < |t| && t[k] == r[i];
            assert t[k] == h[k + 1];
          }
        }
      }
    }
  }

  /** Inserting updates exactly one key of the map. */
  lemma {:induction false} InsertUpdates(h: seq<Entry>, key: string, value: string)
    requires Sorted(h)
    ensures ToMap(Insert(h, key, value)) == ToMap(h)[key := value]
  {
    if h != [] {
      var t := h[1..];
      if h[0].0 == key {
        assert ([(key, value)] + t)[1..] == t;
      } else if Less(key, h[0].0) {
        assert ([(key, value)] + h)[1..] == h;
      } else {
        InsertUpdates(t, key, value);
        assert ([h[0]] + Insert(t, key, value))[1..] == Insert(t, key, value);
      }
    }
  }

  /** Inserting a key above every other appends it. */
  lemma {:induction false} InsertLast(h: seq<Entry>, key: string, value: string)
    requires forall i :: 0 <= i < |h| ==> Less(h[i].0, key)
    ensures Insert(h, key, value) == h + [(key, value)]
  {
    if h != [] {
      LessTotal(h[0].0, key);
      InsertLast(h[1..], key, value);
    }
  }

  const CONTENT_LENGTH: string := "Content-Length"
  const CONNECTION: string := "Connection"
  const HOST: string := "Host"

  /** What `c_str` shows of a string. */
  function CStr(s: string): string { s[..CLength(s)] }

  /** `Get`: the scan for a field; keys and the value are taken as C strings. */
  function Get(h: seq<Entry>, field: string): Option<string> {
    if h == [] then None
    else if CStr(h[0].0) == CStr(field) then Some(CStr(h[0].1))
    else Get(h[1..], field)
  }

  ghost predicate NulFree(h: seq<Entry>) {
    forall i :: 0 <= i < |h| ==> NUL !in h[i].0 && NUL !in h[i].1
  }

  lemma CStrIsWhole(s: string)
    requires NUL !in s
    ensures CStr(s) == s
  {
  }

  /** On entries without a NUL the scan is the map's lookup. */
  lemma {:induction false} GetIsLookup(h: seq<Entry>, field: string)
    requires NulFree(h) && NUL !in field
    ensures Get(h, field) == if field in ToMap(h) then Some(ToMap(h)[field]) else None
  {
    hide CStr;
    if h != [] {
      CStrIsWhole(field);
      CStrIsWhole(h[0].0);
      CStrIsWhole(h[0].1);
      GetIsLookup(h[1..], field);
    }
  }

  /** A NUL ends keys and values for the scan. */
  lemma GetStopsAtNul(key: string, a: string, value: string, b: string)
    requires NUL !in key && NUL !in value
    ensures Get([(key + [NUL] + a, value + [NUL] + b)], key) == Some(value)
  {
    hide CStr;
    CStrEnds(key, a);
    CStrEnds(value, b);
    CStrIsWhole(key);
  }

  lemma {:induction false} CStrEnds(s: string, rest: string)
    requires NUL !in s
    ensures CStr(s + [NUL] + rest) == s
  {
    var t := s + [NUL] + rest;
    if s != [] {
      assert s[0] in s;
      assert t[1..] == s[1..] + [NUL] + rest;
      CStrEnds(s[1..], rest);
    }
  }

  /** `ContentLength`. */
  function ContentLength(h: seq<Entry>): nat {
    match Get(h, CONTENT_LENGTH)
    case None => 0
    case Some(v) => StrToUl(v)
  }

  /** `IsConnectionUpgrade`. */
  predicate IsUpgrade(h: seq<Entry>) {
    Get(h, CONNECTION) == Some("Upgrade")
  }

  function EntryText(e: Entry): string { e.0 + ": " + e.1 }

  /** `HeaderField::ToString`: a line for each entry and a blank line. */
  function HeaderText(h: seq<Entry>): string {
    if h == [] then CRLF else EntryText(h[0]) + CRLF + HeaderText(h[1..])
  }

  /** Lines inserted until one is not a pair; the entries before it stay inserted. */
  function InsertLines(lines: seq<string>, h: seq<Entry>): (bool, seq<Entry>) {
    if lines == [] then (true, h)
    else
      var pair := Split(lines[0], ": ");
      if |pair| != 2 then (false, h) else InsertLines(lines[1..], Insert(h, pair[0], pair[1]))
  }

  /** Lines without a NUL put only entries without a NUL into the map. */
  lemma {:induction false} InsertLinesNulFree(lines: seq<string>, h: seq<Entry>)
    requires NulFree(h) && forall i :: 0 <= i < |lines| ==> NUL !in lines[i]
    ensures NulFree(InsertLines(lines, h).1)
    decreases |lines|
  {
    hide Split;
    if lines != [] {
      var pair := Split(lines[0], ": ");
      if |pair| == 2 {
        TokenHasNo(lines[0], ": ", 0);
        TokenHasNo(lines[0], ": ", 1);
        InsertMembers(h, pair[0], pair[1]);
        InsertLinesNulFree(lines[1..], Insert(h, pair[0], pair[1]));
      }
    }
  }

  lemma TokenHasNo(s: string, sep: string, k: nat)
    requires |sep| > 0 && NUL !in s && k < |Split(s, sep)|
    ensures NUL !in Split(s, sep)[k]
  {
    hide Split, Part;
    SplitParts(s, sep, k);
    PartHasNo(Split(s, sep)[k], s, NUL);
  }

  function ParsedHeaders(text: string, h: seq<Entry>): (bool, seq<Entry>) {
    InsertLines(Split(text, CRLF), h)
  }

  lemma ParsedHeadersNulFree(text: string, h: seq<Entry>)
    requires NulFree(h) && NUL !in text
    ensures NulFree(ParsedHeaders(text, h).1)
  {
    hide Split;
    forall i | 0 <= i < |Split(text, CRLF)|
      ensures NUL !in Split(text, CRLF)[i]
    {
      TokenHasNo(text, CRLF, i);
    }
    InsertLinesNulFree(Split(text, CRLF), h);
  }

  /** `HeaderField::ParseFromString`. */
  method ParseHeaders(text: string, h: seq<Entry>) returns (ok: bool, h': seq<Entry>)
    ensures (ok, h') == ParsedHeaders(text, h)
  {
    hide Split, Insert;
    var lines := SplitLoop(text, CRLF);
    h' := h;
    var i := 0;
    while i < |lines|
      invariant 0 <= i <= |lines|
      invariant ParsedHeaders(text, h) == InsertLines(lines[i..], h')
    {
      var pair := SplitLoop(lines[i], ": ");
      assert lines[i..][0] == lines[i] && lines[i..][1..] == lines[i + 1..];
      if |pair| != 2 {
        return false, h';
      }
      h' := Insert(h', pair[0], pair[1]);
      i := i + 1;
    }
    return true, h';
  }
}
