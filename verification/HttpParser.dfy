/**
 `http/httppacket.cc`, `http/httprequest.cc` and `http/httpresponse.cc`: the resumable parser.
 Its partner is `Parsed`, which reads a whole buffer from the start and remembers nothing.
 */
module HttpParser {
  import opened Wrappers
  import opened StrUtil
  import opened HttpMessage

  /** `TPosition`; `Aborted` is where an exception of `std::stoi` leaves the parser. */
  datatype Position = AtNone | AtFirstLine | AtHeaders | AtBody | AtEnd | AtError | Aborted

  datatype State = State(
    position: Position, resolved: nat, firstLineLen: nat, headerLen: nat,
    line: StartLine, headers: seq<Entry>, upgrade: bool, body: string)

  function Initial(kind: Kind): State {
    State(AtNone, 0, 0, 0, DefaultLine(kind), [], false, [])
  }

  /** The buffer read up to the first line end. */
  function AfterLine(kind: Kind, b: string): (s: State)
    ensures s.resolved == s.firstLineLen <= |b| && s.headers == [] && !s.upgrade
  {
    if b == [] then Initial(kind)
    else
      match SearchC(b, CRLF)
      case None => Initial(kind).(position := AtFirstLine)
      case Some(p) =>
        match ParseLine(kind, b[..p])
        case Accepted(l) => Initial(kind).(position := AtHeaders, resolved := p + 2, firstLineLen := p + 2, line := l)
        case Rejected(l) => Initial(kind).(position := AtError, line := l)
        case Threw(l) => Initial(kind).(position := Aborted, line := l)
  }

  /** The buffer read up to the blank line. */
  function AfterHeaders(kind: Kind, b: string): State {
    var s := AfterLine(kind, b);
    if s.position != AtHeaders then s
    else
      var rest := b[s.resolved..];
      match SearchC(rest, CRLF2)
      case None => s
      case Some(q) =>
        var (ok, h) := ParsedHeaders(rest[..q], s.headers);
        if ok then
          s.(position := AtBody, resolved := s.resolved + q + 4, headerLen := q + 4,
             headers := h, upgrade := kind.Request? && IsUpgrade(h))
        else s.(position := AtError, headers := h)
  }

  predicate IsGet(kind: Kind, l: StartLine) {
    kind.Request? && l.RequestLine? && l.verb == GET
  }

  /** The body judged, the headers being read. */
  function AfterBody(kind: Kind, b: string, s: State): State {
    if IsGet(kind, s.line) then s.(position := if |b| > s.resolved then AtError else AtEnd)
    else
      var n := ContentLength(s.headers);
      var have := |b| - s.firstLineLen - s.headerLen;
      if n == 0 then s.(position := AtError)
      else if n < have then s.(position := AtError, resolved := |b|)
      else if n == have then s.(position := AtEnd, resolved := |b|, body := b[|b| - n..])
      else s.(resolved := |b|)
  }

  /** What a single read of the whole buffer arrives at. */
  function Parsed(kind: Kind, b: string): State {
    var s := AfterHeaders(kind, b);
    if s.position == AtBody then AfterBody(kind, b, s) else s
  }

  predicate Stopped(p: Position) {
    p == AtEnd || p == AtError || p == Aborted
  }

  // -- What has been read stays read --

  /** A match before the first NUL of a prefix is the first match of the whole. */
  lemma SearchStable(b: string, c: string, needle: string)
    requires SearchC(b, needle).Some?
    ensures SearchC(b + c, needle) == SearchC(b, needle)
  {
    var t, t' := b[..CLength(b)], (b + c)[..CLength(b + c)];
    CLengthGrows(b, c);
    assert t <= t';
    FindIsFirst(t, needle);
    var p := Find(t, needle).value;
    forall q | 0 <= q <= p
      ensures MatchAt(t', needle, q) == MatchAt(t, needle, q)
    {
      assert t'[q..q + |needle|] == t[q..q + |needle|];
    }
    FindFirst(t', needle, p);
  }

  lemma {:induction false} CLengthGrows(b: string, c: string)
    ensures CLength(b) <= CLength(b + c)
    ensures b[..CLength(b)] <= (b + c)[..CLength(b + c)]
  {
    if b != [] && b[0] != NUL {
      assert (b + c)[1..] == b[1..] + c;
      CLengthGrows(b[1..], c);
    }
  }

  lemma AfterLineBound(kind: Kind, b: string)
    ensures AfterLine(kind, b).position != AtHeaders ==> AfterLine(kind, b).resolved == 0
    ensures AfterLine(kind, b).position in {AtNone, AtFirstLine, AtHeaders, AtError, Aborted}
    ensures (AfterLine(kind, b).position == AtNone) == (b == [])
  {
    hide ParseLine, SearchC;
  }

  /** A first line once read is read the same in every longer buffer. */
  lemma AfterLineStable(kind: Kind, b: string, c: string)
    requires AfterLine(kind, b).position !in {AtNone, AtFirstLine}
    ensures AfterLine(kind, b + c) == AfterLine(kind, b)
  {
    hide ParseLine, SearchC;
    SearchStable(b, c, CRLF);
    var p := SearchC(b, CRLF).value;
    assert p <= |b| by { SearchBound(b, CRLF); }
    assert (b + c)[..p] == b[..p];
  }

  lemma SearchBound(b: string, needle: string)
    ensures SearchC(b, needle).Some? ==> SearchC(b, needle).value + |needle| <= |b|
  {
  }

  lemma AfterHeadersBound(kind: Kind, b: string)
    ensures var s := AfterHeaders(kind, b);
            s.resolved <= |b| && s.firstLineLen <= s.resolved && s.position !in {AtEnd}
    ensures var s := AfterHeaders(kind, b);
            s.position == AtBody ==> s.resolved == s.firstLineLen + s.headerLen
  {
    hide ParsedHeaders, SearchC, AfterLine;
    AfterLineBound(kind, b);
    SearchBound(b[AfterLine(kind, b).resolved..], CRLF2);
  }

  /** Headers once read are read the same in every longer buffer. */
  lemma AfterHeadersStable(kind: Kind, b: string, c: string)
    requires AfterHeaders(kind, b).position !in {AtNone, AtFirstLine, AtHeaders}
    ensures AfterHeaders(kind, b + c) == AfterHeaders(kind, b)
  {
    hide ParsedHeaders, SearchC, AfterLine;
    var s := AfterLine(kind, b);
    AfterLineBound(kind, b);
    AfterLineStable(kind, b, c);
    if s.position == AtHeaders {
      var rest := b[s.resolved..];
      assert (b + c)[s.resolved..] == rest + c;
      SearchStable(rest, c, CRLF2);
      SearchBound(rest, CRLF2);
      var q := SearchC(rest, CRLF2).value;
      assert (rest + c)[..q] == rest[..q];
    }
  }

  /** The parser looks fields up only among entries without a NUL. */
  lemma HeadersNulFree(kind: Kind, b: string)
    ensures NulFree(AfterHeaders(kind, b).headers)
  {
    hide AfterLine, ParsedHeaders;
    var s := AfterLine(kind, b);
    if s.position == AtHeaders {
      var rest := b[s.resolved..];
      var found := SearchC(rest, CRLF2);
      if found.Some? {
        SearchBound(rest[..CLength(rest)], CRLF2);
        assert rest[..found.value] == rest[..CLength(rest)][..found.value];
        ParsedHeadersNulFree(rest[..found.value], s.headers);
      }
    }
  }

  /** A message ends at the end of its buffer, and what is behind the headers is its body. */
  lemma EndsAtBody(kind: Kind, b: string)
    requires Parsed(kind, b).position == AtEnd
    ensures var s, r := AfterHeaders(kind, b), Parsed(kind, b);
            && s.position == AtBody && r.resolved == |b| && r.line == s.line && r.headers == s.headers
            && (!IsGet(kind, r.line) ==> |r.body| == |b| - s.firstLineLen - s.headerLen)
  {
    AfterHeadersBound(kind, b);
    hide AfterHeaders, ContentLength;
  }

  /** An error is an error in every longer buffer. */
  lemma ErrorIsFinal(kind: Kind, b: string, c: string)
    requires Parsed(kind, b).position in {AtError, Aborted}
    ensures Parsed(kind, b + c).position == Parsed(kind, b).position
  {
    hide AfterHeaders;
    AfterHeadersBound(kind, b);
    AfterHeadersStable(kind, b, c);
  }

  /** A message that is complete is in error as soon as one more byte is read with it. */
  lemma EndIsExact(kind: Kind, b: string, c: string)
    requires Parsed(kind, b).position == AtEnd && c != []
    ensures Parsed(kind, b + c).position == AtError
  {
    hide AfterHeaders;
    AfterHeadersBound(kind, b);
    AfterHeadersStable(kind, b, c);
  }

  /** The parser object. `seen` is the part of the buffer the last call to `DoParse` looked at. */
  class Parser {
    const kind: Kind
    var buffer: string
    var position: Position
    var resolved: nat
    var firstLineLen: nat
    var headerLen: nat
    var line: StartLine
    var headers: seq<Entry>
    var upgrade: bool
    var body: string
    ghost var seen: string

    function View(): State
      reads this
    {
      State(position, resolved, firstLineLen, headerLen, line, headers, upgrade, body)
    }

    ghost predicate Valid()
      reads this
    {
      seen <= buffer && (!Stopped(position) ==> View() == Parsed(kind, seen))
    }

    constructor (kind: Kind)
      ensures Valid() && this.kind == kind && buffer == [] && View() == Initial(kind)
    {
      this.kind := kind;
      buffer, seen := [], [];
      position, resolved, firstLineLen, headerLen := AtNone, 0, 0, 0;
      line, headers, upgrade, body := DefaultLine(kind), [], false, [];
    }

    /** A read appends to the buffer the parser looks at. */
    method Receive(chunk: string)
      requires Valid()
      modifies this`buffer
      ensures Valid() && buffer == old(buffer) + chunk
    {
      buffer := buffer + chunk;
    }

    /** `_ResolveFirstLine` of both parsers. */
    method ResolveFirstLine() returns (ok: bool)
      requires buffer != [] && View() == Initial(kind).(position := AtFirstLine)
      modifies this`position, this`resolved, this`firstLineLen, this`line
      ensures View() == AfterLine(kind, buffer) && ok == (position == AtHeaders)
    {
      var crlf := StrNStr(buffer, CRLF);
      if crlf.Some? {
        match ParseLine(kind, buffer[..crlf.value])
        case Accepted(l) =>
          line, position := l, AtHeaders;
          resolved := crlf.value + 2;
          firstLineLen := resolved;
          return true;
        case Rejected(l) =>
          line, position := l, AtError;
          return false;
        case Threw(l) =>
          line, position := l, Aborted;
          return false;
      }
      position, resolved := AtFirstLine, 0;
      return false;
    }

    /** `_ResolveHeaders`, with the upgrade flag of the request parser. */
    method ResolveHeaders() returns (ok: bool)
      requires position == AtHeaders && View() == AfterLine(kind, buffer)
      modifies this`position, this`resolved, this`headerLen, this`headers, this`upgrade
      ensures View() == AfterHeaders(kind, buffer) && ok == (position == AtBody)
    {
      hide AfterLine, ParsedHeaders, IsUpgrade, SearchC;
      var ret := StrNStr(buffer[resolved..], CRLF2);
      if ret.None? {
        return false;
      }
      SearchBound(buffer[resolved..], CRLF2);
      var parsed, h := ParseHeaders(buffer[resolved..][..ret.value], headers);
      headers := h;
      if parsed {
        resolved := resolved + ret.value + 4;
        headerLen := resolved - firstLineLen;
        position := AtBody;
        if kind.Request? && IsUpgrade(headers) {
          upgrade := true;
        }
        return true;
      }
      position := AtError;
      return false;
    }

    /** `_ResolveBody`, with the request parser's rule for GET. */
    method ResolveBody() returns (ok: bool)
      requires position == AtBody && resolved <= |buffer|
      requires View().(resolved := 0) == AfterHeaders(kind, buffer).(resolved := 0)
      requires resolved == AfterHeaders(kind, buffer).resolved || (!IsGet(kind, line) && ContentLength(headers) > 0)
      modifies this`position, this`resolved, this`body
      ensures View() == Parsed(kind, buffer)
      ensures ok == (position == AtEnd)
    {
      AfterHeadersBound(kind, buffer);
      hide AfterHeaders, ContentLength, IsUpgrade;
      if IsGet(kind, line) {
        if |buffer| - resolved > 0 {
          position := AtError;
          return false;
        }
        position := AtEnd;
        return true;
      }
      var contentLength := ContentLength(headers);
      if contentLength == 0 {
        position := AtError;
        return false;
      }
      resolved := |buffer|;
      var curr := |buffer| - firstLineLen - headerLen;
      if contentLength < curr {
        position := AtError;
        return false;
      } else if contentLength == curr {
        position := AtEnd;
        body := buffer[|buffer| - contentLength..];
        return true;
      }
      return false;
    }

    /**
     `DoParse`: resuming where the last call stopped reaches what one read of the whole buffer
     reaches; a parser that stopped stays as it is. The loop ends because each success moves on.
     */
    method DoParse() returns (ret: int)
      requires Valid()
      modifies this
      ensures Valid() && buffer == old(buffer) && seen == buffer
      ensures View() == if Stopped(old(position)) then old(View()) else Parsed(kind, buffer)
      ensures ret == if |buffer| <= old(resolved) || buffer == [] || position == AtEnd then 0 else -1
    {
      hide AfterLine, AfterHeaders, AfterBody, Parsed, Ready;
      ghost var before, arrived := seen, buffer[|seen|..];
      assert buffer == before + arrived;
      seen := buffer;
      if !Stopped(position) {
        ResumeReady(kind, before, arrived);
        ParsedBound(kind, before);
      }
      if |buffer| <= 0 {
        assert before == buffer;
        return 0;
      }
      if |buffer| - resolved <= 0 {
        assert !Stopped(position) ==> before == buffer;
        return 0;
      }
      while true
        invariant seen == buffer == old(buffer) != []
        invariant Stopped(position) == Stopped(old(position))
        invariant Stopped(position) ==> View() == old(View())
        invariant !Stopped(position) ==> Ready(kind, View(), buffer)
        decreases Rank(position)
      {
        var success := false;
        if !Stopped(position) { ReadyFacts(kind, View(), buffer); }
        if position == AtNone {
          position := AtFirstLine;
          success := ResolveFirstLine();
          LineSettles(kind, buffer);
        } else if position == AtFirstLine {
          success := ResolveFirstLine();
          LineSettles(kind, buffer);
        } else if position == AtHeaders {
          success := ResolveHeaders();
          HeadersSettle(kind, buffer);
        } else if position == AtBody {
          success := ResolveBody();
        }
        if position == AtEnd {
          return 0;
        }
        if position == AtError || position == Aborted {
          return -1;
        }
        if !success {
          return -1;
        }
      }
    }
  }

  function Rank(p: Position): nat {
    match p
    case AtNone => 4
    case AtFirstLine => 3
    case AtHeaders => 2
    case AtBody => 1
    case _ => 0
  }

  /** Where a parser may resume on buffer b: each stage has been computed for b itself. */
  ghost predicate Ready(kind: Kind, s: State, b: string) {
    match s.position
    case AtNone => s == Initial(kind)
    case AtFirstLine => s == Initial(kind).(position := AtFirstLine)
    case AtHeaders => s == AfterLine(kind, b)
    case AtBody =>
      var t := AfterHeaders(kind, b);
      s.(resolved := 0) == t.(resolved := 0) && s.resolved <= |b|
      && (s.resolved == t.resolved || (!IsGet(kind, s.line) && ContentLength(s.headers) > 0))
    case _ => false
  }

  lemma ReadyFacts(kind: Kind, s: State, b: string)
    requires Ready(kind, s, b)
    ensures s.position == AtNone ==> s == Initial(kind)
    ensures s.position == AtFirstLine ==> s == Initial(kind).(position := AtFirstLine)
    ensures s.position == AtHeaders ==> s == AfterLine(kind, b)
    ensures s.position == AtBody ==>
              var t := AfterHeaders(kind, b);
              s.(resolved := 0) == t.(resolved := 0) && s.resolved <= |b|
              && (s.resolved == t.resolved || (!IsGet(kind, s.line) && ContentLength(s.headers) > 0))
  {
  }

  /** What one call leaves behind is where the next call may resume, whatever arrives in between. */
  lemma ResumeReady(kind: Kind, b: string, c: string)
    requires !Stopped(Parsed(kind, b).position)
    ensures Ready(kind, Parsed(kind, b), b + c)
  {
    hide AfterLine, AfterHeaders, ContentLength;
    var s := Parsed(kind, b);
    AfterHeadersBound(kind, b);
    EarlyStages(kind, b);
    if s.position == AtHeaders {
      AfterLineStable(kind, b, c);
    } else if s.position == AtBody {
      AfterHeadersStable(kind, b, c);
    }
  }

  lemma EarlyStages(kind: Kind, b: string)
    ensures var s := AfterHeaders(kind, b);
            && (s.position == AtNone ==> s == Initial(kind))
            && (s.position == AtFirstLine ==> s == Initial(kind).(position := AtFirstLine))
            && (s.position == AtHeaders ==> s == AfterLine(kind, b))
  {
    hide ParseLine, ParsedHeaders, SearchC;
  }

  lemma ParsedBound(kind: Kind, b: string)
    ensures Parsed(kind, b).resolved <= |b|
  {
    hide AfterHeaders, ContentLength;
    AfterHeadersBound(kind, b);
  }

  /** With no header stage to enter, the first line decides; with headers, they are next. */
  lemma LineSettles(kind: Kind, b: string)
    requires b != []
    ensures var s := AfterLine(kind, b);
            s.position in {AtFirstLine, AtHeaders, AtError, Aborted}
            && (if s.position == AtHeaders then Ready(kind, s, b) else s == Parsed(kind, b))
  {
    AfterLineBound(kind, b);
  }

  lemma HeadersSettle(kind: Kind, b: string)
    requires AfterLine(kind, b).position == AtHeaders
    ensures var s := AfterHeaders(kind, b);
            s.position in {AtHeaders, AtBody, AtError}
            && (if s.position == AtBody then Ready(kind, s, b) else s == Parsed(kind, b))
  {
    AfterHeadersBound(kind, b);
  }
}
