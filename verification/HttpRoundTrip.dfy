/** `request::Pack` and `response::Pack`, and what the parser makes of their output. */
module HttpRoundTrip {
  import opened Wrappers
  import opened Chunks
  import opened StrUtil
  import opened Numbers
  import opened HttpMessage
  import opened HttpParser
  import opened HttpChunks

  /** Text that neither ends a line nor stops `strnstr`. */
  ghost predicate Clean(s: string) {
    Absent(s, CRLF) && NUL !in s
  }

  /** A header key or value that survives the split at ": ". */
  ghost predicate CleanField(s: string) {
    s != [] && Clean(s) && Absent(s, ": ")
  }

  /** A word of the start line. */
  ghost predicate CleanWord(s: string) {
    s != [] && Clean(s) && Absent(s, " ")
  }

  ghost predicate CleanEntries(h: seq<Entry>) {
    forall i :: 0 <= i < |h| ==> CleanField(h[i].0) && CleanField(h[i].1)
  }

  // -- Finding the line ends --

  lemma {:induction false} CLengthAtLeast(s: string, n: nat)
    requires n <= |s| && NUL !in s[..n]
    ensures CLength(s) >= n
  {
    if n > 0 {
      assert s[..n] == [s[0]] + s[1..][..n - 1];
      CLengthAtLeast(s[1..], n - 1);
    }
  }

  lemma SearchFound(s: string, needle: string, p: nat)
    requires FirstMatch(s, needle, p) && NUL !in s[..p + |needle|]
    ensures SearchC(s, needle) == Some(p)
  {
    var n := CLength(s);
    CLengthAtLeast(s, p + |needle|);
    var t := s[..n];
    forall q | 0 <= q <= p
      ensures MatchAt(t, needle, q) == MatchAt(s, needle, q)
    {
      assert t[q..q + |needle|] == s[q..q + |needle|];
    }
    FindFirst(t, needle, p);
  }

  function Lines(h: seq<Entry>): (r: seq<string>)
    ensures |r| == |h|
    ensures forall i :: 0 <= i < |h| ==> r[i] == EntryText(h[i])
  {
    if h == [] then [] else [EntryText(h[0])] + Lines(h[1..])
  }

  lemma {:induction false} HeaderTextIsJoin(h: seq<Entry>)
    requires h != []
    ensures HeaderText(h) == Join(Lines(h), CRLF) + CRLF2
  {
    if |h| > 1 {
      HeaderTextIsJoin(h[1..]);
      assert Lines(h)[1..] == Lines(h[1..]);
    } else {
      assert HeaderText(h[1..]) == CRLF;
      assert CRLF2 == CRLF + CRLF;
    }
  }

  /** The blank line is the first place where two line ends meet. */
  lemma {:induction false} BlankLineAfter(lines: seq<string>, rest: string)
    requires |lines| > 0
    requires forall i :: 0 <= i < |lines| ==> lines[i] != [] && Absent(lines[i], CRLF)
    ensures FirstMatch(Join(lines, CRLF) + CRLF2 + rest, CRLF2, |Join(lines, CRLF)|)
  {
    var l := lines[0];
    if |lines| == 1 {
      NoBlankLineBefore(l, CRLF + rest);
      assert l + CRLF2 + rest == l + CRLF + (CRLF + rest);
      assert MatchAt(l + CRLF2 + rest, CRLF2, |l|);
    } else {
      hide FirstMatch, Absent;
      var j := Join(lines[1..], CRLF);
      BlankLineAfter(lines[1..], rest);
      LineStart(lines[1..], CRLF + rest);
      var tail := j + CRLF2 + rest;
      assert tail == j + CRLF + (CRLF + rest);
      OneMoreLine(l, tail, |j|);
      assert Join(lines, CRLF) + CRLF2 + rest == l + CRLF + tail;
    }
  }

  lemma SliceOfConcat(a: string, b: string, q: nat, n: nat)
    requires q + n <= |b|
    ensures (a + b)[|a| + q..|a| + q + n] == b[q..q + n]
  {
  }

  lemma OneMoreLine(l: string, tail: string, p: nat)
    requires Absent(l, CRLF) && !MatchAt(tail, CRLF, 0) && FirstMatch(tail, CRLF2, p)
    ensures FirstMatch(l + CRLF + tail, CRLF2, |l| + 2 + p)
  {
    var s := l + CRLF + tail;
    NoBlankLineBefore(l, tail);
    forall q: nat | q <= |tail|
      ensures MatchAt(s, CRLF2, |l| + 2 + q) == MatchAt(tail, CRLF2, q)
    {
      if q + 4 <= |tail| {
        SliceOfConcat(l + CRLF, tail, q, 4);
      }
    }
    forall q | |l| <= q < |l| + 2 + p
      ensures !MatchAt(s, CRLF2, q)
    {
      if q == |l| {
        assert s[q..q + 4][2..] == tail[..2];
        assert CRLF2[2..] == CRLF;
      } else if q == |l| + 1 {
        assert s[q] != CRLF2[0];
      } else {
        assert !MatchAt(tail, CRLF2, q - |l| - 2);
      }
    }
  }

  /** A line that is not empty does not start with a line end. */
  lemma LineStart(lines: seq<string>, rest: string)
    requires |lines| > 0 && lines[0] != [] && Absent(lines[0], CRLF)
    ensures !MatchAt(Join(lines, CRLF) + CRLF + rest, CRLF, 0)
  {
    var x := if |lines| == 1 then rest else Join(lines[1..], CRLF) + CRLF + rest;
    SeparatorAfter(lines[0], CRLF, x);
    assert Join(lines, CRLF) + CRLF + rest == lines[0] + CRLF + x;
  }

  lemma NoBlankLineBefore(l: string, tail: string)
    requires Absent(l, CRLF)
    ensures forall q :: 0 <= q < |l| ==> !MatchAt(l + CRLF + tail, CRLF2, q)
  {
    SeparatorAfter(l, CRLF, tail);
    var s := l + CRLF + tail;
    forall q | 0 <= q < |l|
      ensures !MatchAt(s, CRLF2, q)
    {
      assert !MatchAt(s, CRLF, q);
      if q + 4 <= |s| {
        assert s[q..q + 4][..2] == s[q..q + 2];
        assert CRLF2[..2] == CRLF;
      }
    }
  }

  // -- Reading the headers back --

  lemma AbsentInConcat(a: string, b: string, needle: string)
    requires |needle| == 2 && Absent(a, needle) && Absent(b, needle)
    requires a == [] || b == [] || a[|a| - 1] != needle[0] || b[0] != needle[1]
    ensures Absent(a + b, needle)
  {
    forall q: nat | q <= |a + b|
      ensures !MatchAt(a + b, needle, q)
    {
      if q + 2 <= |a| {
        assert (a + b)[q..q + 2] == a[q..q + 2];
        assert !MatchAt(a, needle, q);
      } else if |a| <= q && q + 2 <= |a + b| {
        assert (a + b)[q..q + 2] == b[q - |a|..q - |a| + 2];
        assert !MatchAt(b, needle, q - |a|);
      } else if q + 2 <= |a + b| {
        assert (a + b)[q..q + 2] == [a[|a| - 1], b[0]];
      }
    }
  }

  lemma EntryLine(e: Entry)
    requires CleanField(e.0) && CleanField(e.1)
    ensures Absent(EntryText(e), CRLF) && NUL !in EntryText(e) && EntryText(e) != []
    ensures Split(EntryText(e), ": ") == [e.0, e.1]
  {
    assert Absent(": ", CRLF) by { assert ": "[0..2][0] != CRLF[0]; }
    AbsentInConcat(e.0, ": ", CRLF);
    AbsentInConcat(e.0 + ": ", e.1, CRLF);
    var pair := [e.0, e.1];
    assert pair[1..] == [e.1];
    assert Join(pair, ": ") == EntryText(e);
    SplitOfJoin(pair, ": ");
  }

  /** Reading the lines of a sorted map into an earlier part of it rebuilds it, entry by entry. */
  lemma {:induction false} InsertLinesRebuilds(done: seq<Entry>, h: seq<Entry>)
    requires Sorted(done + h) && CleanEntries(h)
    ensures InsertLines(Lines(h), done) == (true, done + h)
    decreases |h|
  {
    hide Split, Insert, CleanField;
    if h == [] {
      assert done + h == done;
    } else {
      var e := h[0];
      EntryLine(e);
      forall i | 0 <= i < |done|
        ensures Less(done[i].0, e.0)
      {
        assert (done + h)[i] == done[i] && (done + h)[|done|] == e;
      }
      InsertLast(done, e.0, e.1);
      assert done + h == (done + [e]) + h[1..];
      InsertLinesRebuilds(done + [e], h[1..]);
      assert Lines(h)[1..] == Lines(h[1..]);
    }
  }

  lemma LinesAreClean(h: seq<Entry>)
    requires CleanEntries(h)
    ensures forall i :: 0 <= i < |h| ==> Absent(Lines(h)[i], CRLF) && Lines(h)[i] != []
  {
    hide CleanField, Absent;
    forall i | 0 <= i < |h|
      ensures Absent(Lines(h)[i], CRLF) && Lines(h)[i] != []
    {
      EntryLine(h[i]);
    }
  }

  /** The header block of two or more entries reads back; a single entry is lost. */
  lemma HeadersReadBack(h: seq<Entry>)
    requires h != [] && Sorted(h) && CleanEntries(h)
    ensures ParsedHeaders(Join(Lines(h), CRLF), []) == (true, if |h| == 1 then [] else h)
  {
    hide Split, Join, CleanField, Lines, Absent, Insert;
    LinesAreClean(h);
    SplitOfJoin(Lines(h), CRLF);
    assert [] + h == h;
    InsertLinesRebuilds([], h);
  }

  lemma {:induction false} HeaderTextHasNoNul(h: seq<Entry>)
    requires CleanEntries(h)
    ensures NUL !in HeaderText(h)
  {
    if h != [] { HeaderTextHasNoNul(h[1..]); }
  }

  /** A message with first line t before its body is judged. */
  function Unjudged(kind: Kind, t: string, l: StartLine, h: seq<Entry>, headerLen: nat): State {
    State(AtBody, |t| + 2 + headerLen, |t| + 2, headerLen, l, h, kind.Request? && IsUpgrade(h), [])
  }

  /** The first line and the headers of a packed message are read back. */
  lemma PackedHeadersRead(kind: Kind, t: string, l: StartLine, h: seq<Entry>, body: string)
    requires ParseLine(kind, t) == Accepted(l) && Clean(t)
    requires h != [] && Sorted(h) && CleanEntries(h)
    ensures AfterHeaders(kind, t + CRLF + (HeaderText(h) + body))
         == Unjudged(kind, t, l, if |h| == 1 then [] else h, |HeaderText(h)|)
  {
    hide ParseLine, SearchC, ParsedHeaders, IsUpgrade, CleanEntries;
    var b := t + CRLF + (HeaderText(h) + body);
    SeparatorAfter(t, CRLF, HeaderText(h) + body);
    assert b[..|t| + 2] == t + CRLF;
    SearchFound(b, CRLF, |t|);
    assert b[..|t|] == t && b[|t| + 2..] == HeaderText(h) + body;
    BlankLineFound(h, body);
    HeadersReadBack(h);
  }

  lemma BlankLineFound(h: seq<Entry>, body: string)
    requires h != [] && CleanEntries(h)
    ensures |HeaderText(h)| >= 4 && SearchC(HeaderText(h) + body, CRLF2) == Some(|HeaderText(h)| - 4)
    ensures (HeaderText(h) + body)[..|HeaderText(h)| - 4] == Join(Lines(h), CRLF)
  {
    hide Join, CleanField, Lines, Absent;
    HeaderTextIsJoin(h);
    LinesAreClean(h);
    BlankLineAfter(Lines(h), body);
    HeaderTextHasNoNul(h);
    assert (HeaderText(h) + body)[..|HeaderText(h)|] == HeaderText(h);
    SearchFound(HeaderText(h) + body, CRLF2, |HeaderText(h)| - 4);
  }

  /** The body is judged by its declared length. */
  lemma BodyJudged(kind: Kind, t: string, l: StartLine, h: seq<Entry>, headerLen: nat, b: string, body: string)
    requires !IsGet(kind, l) && |b| == |t| + 2 + headerLen + |body|
    requires b[|t| + 2 + headerLen..] == body
    ensures var r := AfterBody(kind, b, Unjudged(kind, t, l, h, headerLen));
            && (r.position == AtEnd <==> 0 < ContentLength(h) == |body|)
            && (r.position == AtEnd ==>
                r == State(AtEnd, |b|, |t| + 2, headerLen, l, h, kind.Request? && IsUpgrade(h), body))
            && (ContentLength(h) == 0 || ContentLength(h) < |body| ==> r.position == AtError)
            && (ContentLength(h) > |body| ==> r.position == AtBody)
  {
    hide ContentLength, IsUpgrade;
  }

  // -- The packers --

  function InsertAll(h: seq<Entry>, es: seq<Entry>): seq<Entry>
    decreases |es|
  {
    if es == [] then h else InsertAll(Insert(h, es[0].0, es[0].1), es[1..])
  }

  const CLOSE: string := "close"

  /** The merged headers of `request::Pack`: the caller's override two, the length overrides all. */
  function RequestHeaders(host: string, user: seq<Entry>, size: nat): seq<Entry> {
    Insert(InsertAll(Insert(Insert([], HOST, host), CONNECTION, CLOSE), user), CONTENT_LENGTH, Printed(size, 8))
  }

  function PackedRequest(host: string, url: string, user: seq<Entry>, body: string): string {
    LineText(RequestLine(POST, url, Http11)) + CRLF + (HeaderText(RequestHeaders(host, user, |body|)) + body)
  }

  function PackedResponse(l: StartLine, user: seq<Entry>, body: string): string {
    LineText(l) + CRLF + (HeaderText(Insert(InsertAll([], user), CONTENT_LENGTH, Printed(|body|, 8))) + body)
  }

  /** A response that is packed without a body. */
  function BareResponse(l: StartLine, user: seq<Entry>): string {
    LineText(l) + CRLF + HeaderText(InsertAll([], user))
  }

  /** The loop over the caller's map. */
  method InsertLoop(h: seq<Entry>, es: seq<Entry>) returns (r: seq<Entry>)
    ensures r == InsertAll(h, es)
  {
    hide Insert;
    r := h;
    var i := 0;
    while i < |es|
      invariant 0 <= i <= |es|
      invariant InsertAll(r, es[i..]) == InsertAll(h, es)
    {
      assert es[i..][0] == es[i] && es[i..][1..] == es[i + 1..];
      r := Insert(r, es[i].0, es[i].1);
      i := i + 1;
    }
  }

  lemma HeaderTextStep(target: string, h: seq<Entry>)
    requires h != []
    ensures target + HeaderText(h) == target + h[0].0 + ": " + h[0].1 + CRLF + HeaderText(h[1..])
  {
  }

  /** `HeaderField::ToString`. */
  method HeadersToString(h: seq<Entry>) returns (target: string)
    ensures target == HeaderText(h)
  {
    target := [];
    var i := 0;
    assert h[0..] == h;
    while i < |h|
      invariant 0 <= i <= |h|
      invariant target + HeaderText(h[i..]) == HeaderText(h)
    {
      hide HeaderText;
      HeaderTextStep(target, h[i..]);
      assert h[i..][1..] == h[i + 1..];
      target := target + h[i].0 + ": " + h[i].1 + CRLF;
      i := i + 1;
    }
    target := target + CRLF;
  }

  /** `request::Pack`. A null map is an empty one. */
  method PackRequest(host: string, url: string, user: seq<Entry>, body: string) returns (out: string)
    ensures out == PackedRequest(host, url, user, body)
  {
    var h := Insert([], HOST, host);
    h := Insert(h, CONNECTION, CLOSE);
    h := InsertLoop(h, user);
    h := Insert(h, CONTENT_LENGTH, Printed(|body|, 8));
    var fields := HeadersToString(h);
    out := LineText(RequestLine(POST, url, Http11)) + CRLF;
    out := out + fields;
    out := out + body;
  }

  /** `response::Pack`; a null body is none. */
  method PackResponse(version: Version, code: int, desc: string, user: seq<Entry>, body: Option<string>)
    returns (out: string)
    ensures var l := StatusLine(version, code, desc);
            out == match body case Some(s) => PackedResponse(l, user, s) case None => BareResponse(l, user)
  {
    var h := InsertLoop([], user);
    if body.Some? {
      h := Insert(h, CONTENT_LENGTH, Printed(|body.value|, 8));
    }
    var fields := HeadersToString(h);
    out := LineText(StatusLine(version, code, desc)) + CRLF;
    out := out + fields;
    if body.Some? {
      out := out + body.value;
    }
  }

  // -- Constants are clean --

  predicate PlainChar(c: char) { c != '\r' && c != ':' && c != ' ' && c != NUL }

  lemma PlainIsClean(s: string)
    requires s != [] && forall i :: 0 <= i < |s| ==> PlainChar(s[i])
    ensures CleanField(s) && CleanWord(s)
  {
    forall q: nat | q <= |s|
      ensures !MatchAt(s, CRLF, q) && !MatchAt(s, ": ", q) && !MatchAt(s, " ", q)
    {
      if q < |s| {
        assert PlainChar(s[q]);
        assert q + 2 <= |s| ==> s[q..q + 2][0] == s[q];
        assert s[q..q + 1][0] == s[q];
      }
    }
  }

  lemma DigitsAreClean(s: string)
    requires s != [] && AllDigits(s)
    ensures CleanField(s) && CleanWord(s)
  {
    PlainIsClean(s);
  }

  lemma ConstantsAreClean()
    ensures CleanField(HOST) && CleanField(CONNECTION) && CleanField(CONTENT_LENGTH) && CleanField(CLOSE)
    ensures HOST != CONTENT_LENGTH
  {
    PlainIsClean(HOST);
    PlainIsClean(CONNECTION);
    PlainIsClean(CONTENT_LENGTH);
    PlainIsClean(CLOSE);
  }

  lemma WordsAreClean(m: Method, v: Version)
    ensures CleanWord(MethodText(m)) && MethodOf(MethodText(m)) == m
    ensures CleanWord(VersionText(v)) && VersionOf(VersionText(v)) == v
  {
    PlainIsClean(MethodText(m));
    PlainIsClean(VersionText(v));
  }

  // -- The merged header map --

  lemma {:induction false} KeysInMap(h: seq<Entry>)
    ensures forall i :: 0 <= i < |h| ==> h[i].0 in ToMap(h)
    ensures forall k :: k in ToMap(h) ==> exists i :: 0 <= i < |h| && h[i].0 == k
  {
    if h != [] {
      KeysInMap(h[1..]);
      forall k | k in ToMap(h)
        ensures exists i :: 0 <= i < |h| && h[i].0 == k
      {
        if k != h[0].0 {
          var i :| 0 <= i < |h[1..]| && h[1..][i].0 == k;
          assert h[i + 1].0 == k;
        }
      }
    }
  }

  lemma HeadKeyIsNew(es: seq<Entry>)
    requires es != [] && Sorted(es)
    ensures es[0].0 !in ToMap(es[1..])
  {
    KeysInMap(es[1..]);
    forall i | 0 <= i < |es[1..]|
      ensures es[1..][i].0 != es[0].0
    {
      assert Less(es[0].0, es[i + 1].0);
      LessTotal(es[0].0, es[0].0);
    }
  }

  /** Inserting a map entry by entry keeps order and cleanness and merges it over the old one. */
  lemma {:induction false} InsertAllMerges(h: seq<Entry>, es: seq<Entry>)
    requires Sorted(h) && Sorted(es) && CleanEntries(h) && CleanEntries(es)
    ensures Sorted(InsertAll(h, es)) && CleanEntries(InsertAll(h, es))
    ensures ToMap(InsertAll(h, es)) == ToMap(h) + ToMap(es)
    decreases |es|
  {
    hide CleanField, Less, Insert;
    if es != [] {
      var e := es[0];
      InsertClean(h, e.0, e.1);
      HeadKeyIsNew(es);
      InsertAllMerges(Insert(h, e.0, e.1), es[1..]);
    }
  }

  lemma InsertClean(h: seq<Entry>, key: string, value: string)
    requires Sorted(h) && CleanEntries(h) && CleanField(key) && CleanField(value)
    ensures Sorted(Insert(h, key, value)) && CleanEntries(Insert(h, key, value))
    ensures ToMap(Insert(h, key, value)) == ToMap(h)[key := value]
    ensures Insert(h, key, value) != []
  {
    hide CleanField, Less;
    InsertKeepsOrder(h, key, value);
    InsertUpdates(h, key, value);
    InsertMembers(h, key, value);
  }

  /** One entry holds one key. */
  lemma SingleEntry(h: seq<Entry>)
    requires h != []
    ensures h[0].0 in ToMap(h).Keys
    ensures |h| == 1 ==> ToMap(h).Keys == {h[0].0}
    ensures Sorted(h) && |h| > 1 ==> ToMap(h).Keys != {h[0].0}
  {
    KeysInMap(h);
    if |h| > 1 && Sorted(h) {
      assert h[1].0 in ToMap(h);
      LessTotal(h[0].0, h[0].0);
      assert Less(h[0].0, h[1].0);
    }
  }

  lemma PrintedSome(n: nat)
    ensures Printed(n, 8) != []
  {
  }

  lemma CleanIsNulFree(h: seq<Entry>)
    requires CleanEntries(h)
    ensures NulFree(h) && NUL !in CONTENT_LENGTH
  {
  }

  /** The closing insertion of both packers. */
  lemma LengthInserted(h: seq<Entry>, size: nat)
    requires Sorted(h) && CleanEntries(h)
    ensures var r := Insert(h, CONTENT_LENGTH, Printed(size, 8));
            && Sorted(r) && CleanEntries(r) && r != []
            && ToMap(r) == ToMap(h)[CONTENT_LENGTH := Printed(size, 8)]
            && ContentLength(r) == StrToUl(Printed(size, 8))
            && (|r| == 1 <==> ToMap(h).Keys <= {CONTENT_LENGTH})
  {
    hide CleanField, Less, Insert, StrToUl, Get, Printed, CleanEntries, NulFree, ToMap, Sorted;
    ConstantsAreClean();
    PrintedSome(size);
    DigitsAreClean(Printed(size, 8));
    InsertClean(h, CONTENT_LENGTH, Printed(size, 8));
    var r := Insert(h, CONTENT_LENGTH, Printed(size, 8));
    CleanIsNulFree(r);
    GetIsLookup(r, CONTENT_LENGTH);
    SingleEntry(r);
    assert ToMap(r).Keys == ToMap(h).Keys + {CONTENT_LENGTH};
  }

  // -- The theorems --

  lemma ThreeWords(a: string, b: string, c: string)
    requires CleanWord(a) && CleanWord(b) && CleanWord(c)
    ensures var t := a + " " + b + " " + c; Clean(t) && Split(t, " ") == [a, b, c]
  {
    var words := [a, b, c];
    assert words[1..] == [b, c] && [b, c][1..] == [c];
    assert Join([b, c], " ") == b + " " + c;
    assert Join(words, " ") == a + " " + b + " " + c;
    WordsTogether(a, b);
    WordsTogether(a + " " + b, c);
    SplitOfJoin(words, " ");
  }

  lemma WordsTogether(a: string, b: string)
    requires Clean(a) && Clean(b)
    ensures Clean(a + " " + b)
  {
    assert Absent(" ", CRLF);
    AbsentInConcat(a, " ", CRLF);
    AbsentInConcat(a + " ", b, CRLF);
  }

  lemma LineReadsBack(kind: Kind, l: StartLine, a: string, b: string, c: string)
    requires CleanWord(a) && CleanWord(b) && CleanWord(c)
    requires LineText(l) == Join([a, b, c], " ")
    ensures Clean(LineText(l)) && Split(LineText(l), " ") == [a, b, c]
  {
    hide CleanWord, Clean, Split;
    assert [a, b, c][1..] == [b, c] && [b, c][1..] == [c];
    assert Join([b, c], " ") == b + " " + c;
    assert LineText(l) == a + " " + b + " " + c;
    ThreeWords(a, b, c);
  }

  /** The judgement of a packed message: complete exactly for 1 to 99,999,999 body bytes and two headers. */
  lemma PackedRead(kind: Kind, l: StartLine, base: seq<Entry>, body: string)
    requires ParseLine(kind, LineText(l)) == Accepted(l) && Clean(LineText(l)) && !IsGet(kind, l)
    requires Sorted(base) && CleanEntries(base)
    ensures var h := Insert(base, CONTENT_LENGTH, Printed(|body|, 8));
            var r := Parsed(kind, LineText(l) + CRLF + (HeaderText(h) + body));
            var ok := 1 <= |body| <= 99_999_999 && !(ToMap(base).Keys <= {CONTENT_LENGTH});
            && r.position == (if ok then AtEnd else AtError)
            && (ok ==>
                r == State(AtEnd, |LineText(l)| + 2 + |HeaderText(h)| + |body|, |LineText(l)| + 2, |HeaderText(h)|,
                           l, h, kind.Request? && IsUpgrade(h), body))
  {
    hide ParseLine, LineText, CleanEntries, Sorted, IsUpgrade, StrToUl, AfterHeaders, AfterBody;
    hide HeaderText, Printed, Insert, ToMap, ContentLength, Clean;
    LengthInserted(base, |body|);
    var h := Insert(base, CONTENT_LENGTH, Printed(|body|, 8));
    PackedHeadersRead(kind, LineText(l), l, h, body);
    PrintedLength(|body|);
    var b := LineText(l) + CRLF + (HeaderText(h) + body);
    assert b[|LineText(l)| + 2 + |HeaderText(h)|..] == body;
    var kept := if |h| == 1 then [] else h;
    NoLengthInNothing();
    BodyJudged(kind, LineText(l), l, kept, |HeaderText(h)|, b, body);
  }

  lemma NoLengthInNothing()
    ensures ContentLength([]) == 0
  {
  }

  /** The packed message of which only a part, or nothing, is ever taken for complete. */
  predicate CutShort(r: State, b: string, body: string) {
    r.position == AtError || (r.position == AtEnd && r.resolved < |b| && |r.body| < |body|)
  }

  /** Outside the range every chunking ends in an error, or early on the shorter length that was written. */
  lemma NotComplete(kind: Kind, l: StartLine, base: seq<Entry>, body: string, chunks: seq<string>)
    requires ParseLine(kind, LineText(l)) == Accepted(l) && Clean(LineText(l)) && !IsGet(kind, l)
    requires Sorted(base) && CleanEntries(base) && NonEmptyReads(chunks)
    requires !(1 <= |body| <= 99_999_999) || ToMap(base).Keys <= {CONTENT_LENGTH}
    requires var h := Insert(base, CONTENT_LENGTH, Printed(|body|, 8));
             Flat(chunks) == LineText(l) + CRLF + (HeaderText(h) + body)
    ensures CutShort(AfterReads(kind, chunks), Flat(chunks), body)
  {
    hide ParseLine, LineText, Clean, CleanEntries, Sorted, HeaderText, Printed, Insert, ToMap;
    hide AfterReads, Flat, Parsed, AfterHeaders;
    var h := Insert(base, CONTENT_LENGTH, Printed(|body|, 8));
    var b := LineText(l) + CRLF + (HeaderText(h) + body);
    PackedRead(kind, l, base, body);
    VerdictOfReads(kind, chunks);
    var i := StateOfPrefix(kind, chunks);
    if AfterReads(kind, chunks).position == AtEnd {
      assert chunks[..|chunks|] == chunks;
      var q := Flat(chunks[..i]);
      var rest := FlatRest(chunks, i);
      LengthInserted(base, |body|);
      PackedHeadersRead(kind, LineText(l), l, h, body);
      EndsAtBody(kind, q);
      AfterHeadersStable(kind, q, rest);
    }
  }

  /**
   The request round trip, under any chunking into non-empty reads: the parser ends complete
   exactly at the last byte, with method, URL, version, merged headers and body, if and only if
   the body has 1 to 99,999,999 bytes; with any other body it ends in an error, or too early.
   */
  lemma RequestRoundTrip(host: string, url: string, user: seq<Entry>, body: string, chunks: seq<string>)
    requires CleanField(host) && CleanWord(url) && Sorted(user) && CleanEntries(user)
    requires Flat(chunks) == PackedRequest(host, url, user, body)
    requires NonEmptyReads(chunks)
    ensures var h, b := RequestHeaders(host, user, |body|), PackedRequest(host, url, user, body);
            var r := AfterReads(Request, chunks);
            if 1 <= |body| <= 99_999_999 then
              && r.position == AtEnd && r.resolved == |b|
              && r.line == RequestLine(POST, url, Http11) && r.headers == h && r.body == body
            else CutShort(r, b, body)
  {
    hide CleanField, CleanWord, CleanEntries, Sorted, Insert, InsertAll, Printed, HeaderText;
    hide AfterReads, Flat, Parsed, ToMap, LineText, CutShort;
    var l := RequestLine(POST, url, Http11);
    RequestLineReadsBack(url);
    var base := InsertAll(Insert(Insert([], HOST, host), CONNECTION, CLOSE), user);
    RequestBase(host, user);
    if 1 <= |body| <= 99_999_999 {
      PackedRead(Request, l, base, body);
      CompleteUnderAnyChunking(Request, PackedRequest(host, url, user, body), chunks);
    } else {
      NotComplete(Request, l, base, body, chunks);
    }
  }

  /** The caller's headers override the default two, and the length overrides all. */
  lemma RequestHeadersMerge(host: string, user: seq<Entry>, size: nat)
    requires CleanField(host) && Sorted(user) && CleanEntries(user)
    ensures ToMap(RequestHeaders(host, user, size))
         == map[HOST := host, CONNECTION := CLOSE] + ToMap(user) + map[CONTENT_LENGTH := Printed(size, 8)]
  {
    hide CleanField, Insert, InsertAll, Printed, ToMap, Sorted, CleanEntries, ContentLength, StrToUl;
    RequestBase(host, user);
    LengthInserted(InsertAll(Insert(Insert([], HOST, host), CONNECTION, CLOSE), user), size);
  }

  lemma RequestLineReadsBack(url: string)
    requires CleanWord(url)
    ensures var l := RequestLine(POST, url, Http11);
            ParseLine(Request, LineText(l)) == Accepted(l) && Clean(LineText(l))
  {
    var l := RequestLine(POST, url, Http11);
    WordsAreClean(POST, Http11);
    LineReadsBack(Request, l, MethodText(POST), url, VersionText(Http11));
  }

  lemma RequestBase(host: string, user: seq<Entry>)
    requires CleanField(host) && Sorted(user) && CleanEntries(user)
    ensures var base := InsertAll(Insert(Insert([], HOST, host), CONNECTION, CLOSE), user);
            && Sorted(base) && CleanEntries(base)
            && ToMap(base) == map[HOST := host, CONNECTION := CLOSE] + ToMap(user)
            && !(ToMap(base).Keys <= {CONTENT_LENGTH})
  {
    hide CleanField, Insert, InsertAll, Less;
    ConstantsAreClean();
    InsertClean([], HOST, host);
    InsertClean(Insert([], HOST, host), CONNECTION, CLOSE);
    var first := Insert(Insert([], HOST, host), CONNECTION, CLOSE);
    InsertAllMerges(first, user);
    assert HOST in ToMap(InsertAll(first, user));
  }

  // -- Responses --

  /** A status line that survives: a code of at most three digits and a description of one word. */
  ghost predicate CleanStatus(code: int, desc: string) { 0 <= code < 1000 && CleanWord(desc) }

  /** A status line reads back, whatever follows it, if and only if it is such a line. */
  lemma StatusLineReadsBackIff(version: Version, code: int, desc: string, rest: string)
    ensures var l := StatusLine(version, code, desc);
            var s := AfterLine(Response, LineText(l) + CRLF + rest);
            (s.position == AtHeaders && s.line == l <==> CleanStatus(code, desc))
  {
    hide ParseLine, SearchC, LineText, CleanWord, Clean;
    var l := StatusLine(version, code, desc);
    var b := LineText(l) + CRLF + rest;
    if CleanStatus(code, desc) {
      StatusLineReadsBack(version, code, desc);
      LineFound(LineText(l), rest);
    }
    var s := AfterLine(Response, b);
    if s.position == AtHeaders && s.line == l {
      var p := SearchC(b, CRLF).value;
      FoundIsClean(b, p);
      DescriptionIsClean(b[..p], l);
      CodeIsShort(version, code, desc, rest);
    }
  }

  lemma LineFound(t: string, rest: string)
    requires Clean(t)
    ensures var b := t + CRLF + rest; SearchC(b, CRLF) == Some(|t|) && b[..|t|] == t && b[|t| + 2..] == rest
  {
    hide SearchC;
    var b := t + CRLF + rest;
    SeparatorAfter(t, CRLF, rest);
    assert b[..|t| + 2] == t + CRLF;
    SearchFound(b, CRLF, |t|);
  }

  /** Whatever comes before the line end found is clean. */
  lemma FoundIsClean(b: string, p: nat)
    requires SearchC(b, CRLF) == Some(p)
    ensures p <= |b| && Clean(b[..p])
  {
    var t := b[..CLength(b)];
    FindIsFirst(t, CRLF);
    HeadIsFree(t, CRLF, p);
    assert b[..p] == t[..p];
    PartHasNo(t[..p], t, NUL);
  }

  lemma DescriptionIsClean(text: string, l: StartLine)
    requires Clean(text) && l.StatusLine? && ParseLine(Response, text) == Accepted(l)
    ensures CleanWord(l.desc)
  {
    hide Split, Stoi, Absent, Part;
    SplitParts(text, " ", 2);
    var word := Split(text, " ")[2];
    PartIsFree(word, text, CRLF);
    PartHasNo(word, text, NUL);
  }

  lemma CodeIsShort(version: Version, code: int, desc: string, rest: string)
    requires CleanWord(desc)
    requires var l := StatusLine(version, code, desc);
             var s := AfterLine(Response, LineText(l) + CRLF + rest); s.position == AtHeaders && s.line == l
    ensures CleanStatus(code, desc)
  {
    hide SearchC, CleanWord, Clean, Stoi, Split, Printed, LineText;
    var l := StatusLine(version, code, desc);
    var printed := Printed(code % 0x1_0000_0000, 3);
    WordsAreClean(GET, version);
    PrintedThree(code % 0x1_0000_0000);
    DigitsAreClean(printed);
    StatusText(l);
    LineReadsBack(Response, l, VersionText(version), printed, desc);
    LineFound(LineText(l), rest);
  }

  lemma StatusText(l: StartLine)
    requires l.StatusLine?
    ensures LineText(l) == Join([VersionText(l.version), Printed(l.code % 0x1_0000_0000, 3), l.desc], " ")
  {
  }

  lemma PrintedThree(n: nat)
    ensures Printed(n, 3) != [] && Stoi(Printed(n, 3)).Some? && 0 <= Stoi(Printed(n, 3)).value < 1000
  {
    var s := Printed(n, 3);
    ReadDigits(s);
    ValueBound(s);
    PowMonotone(|s|, 3);
    assert Pow10(1) == 10 && Pow10(2) == 100 && Pow10(3) == 1000;
  }

  /** What the packed response must come back as. */
  predicate CameBack(r: State, l: StartLine, user: seq<Entry>, body: string, b: string) {
    && r.position == AtEnd && r.resolved == |b| && r.line == l && r.body == body
    && ToMap(r.headers) == ToMap(user)[CONTENT_LENGTH := Printed(|body|, 8)]
  }

  /**
   The response round trip, under any chunking: complete, with every field, if and only if the code has at
   most three digits, the description is one word, the body has 1 to 99,999,999 bytes and some header
   besides the length was given. With a clean status line it ends otherwise in an error, or too early.
   */
  lemma ResponseRoundTrip(
      version: Version, code: int, desc: string, user: seq<Entry>, body: string, chunks: seq<string>)
    requires Sorted(user) && CleanEntries(user)
    requires Flat(chunks) == PackedResponse(StatusLine(version, code, desc), user, body)
    requires NonEmptyReads(chunks)
    ensures var ok := 1 <= |body| <= 99_999_999 && !(ToMap(user).Keys <= {CONTENT_LENGTH});
            var r, l := AfterReads(Response, chunks), StatusLine(version, code, desc);
            && (CameBack(r, l, user, body, Flat(chunks)) <==> CleanStatus(code, desc) && ok)
            && (CleanStatus(code, desc) && !ok ==> CutShort(r, Flat(chunks), body))
  {
    hide CleanField, CleanWord, CleanEntries, Sorted, Insert, InsertAll, Printed, HeaderText;
    hide AfterReads, Flat, Parsed, LineText, CutShort, ToMap, Clean;
    var l := StatusLine(version, code, desc);
    var base := InsertAll([], user);
    ResponseBase(user);
    if CleanStatus(code, desc) {
      StatusLineReadsBack(version, code, desc);
      LengthInserted(base, |body|);
      if 1 <= |body| <= 99_999_999 && !(ToMap(user).Keys <= {CONTENT_LENGTH}) {
        PackedRead(Response, l, base, body);
        CompleteUnderAnyChunking(Response, PackedResponse(l, user, body), chunks);
      } else {
        NotComplete(Response, l, base, body, chunks);
        CutIsNotBack(AfterReads(Response, chunks), l, user, body, Flat(chunks));
      }
    } else if CameBack(AfterReads(Response, chunks), l, user, body, Flat(chunks)) {
      LineCameBack(l, chunks);
      var rest := HeaderText(Insert(base, CONTENT_LENGTH, Printed(|body|, 8))) + body;
      StatusLineReadsBackIff(version, code, desc, rest);
    }
  }

  lemma CutIsNotBack(r: State, l: StartLine, user: seq<Entry>, body: string, b: string)
    requires CutShort(r, b, body)
    ensures !CameBack(r, l, user, body, b)
  {
  }

  /** A parse that ends at the last byte has read the first line of the whole buffer. */
  lemma LineCameBack(l: StartLine, chunks: seq<string>)
    requires NonEmptyReads(chunks)
    requires var r := AfterReads(Response, chunks); r.position == AtEnd && r.resolved == |Flat(chunks)| && r.line == l
    ensures AfterLine(Response, Flat(chunks)).position == AtHeaders && AfterLine(Response, Flat(chunks)).line == l
  {
    hide AfterReads, Flat, Parsed, AfterLine;
    var i := StateOfPrefix(Response, chunks);
    var q := Flat(chunks[..i]);
    EndsAtBody(Response, q);
    AfterLineBound(Response, q);
    assert chunks[..|chunks|] == chunks;
    if i < |chunks| {
      var rest := FlatRest(chunks, i);
      assert false;
    }
  }

  /** A response without a body is never taken for complete: its parse is an error or waits for ever. */
  lemma BareResponseNeverEnds(l: StartLine, user: seq<Entry>, chunks: seq<string>)
    requires Clean(LineText(l)) && Sorted(user) && CleanEntries(user)
    requires Flat(chunks) == BareResponse(l, user) && NonEmptyReads(chunks)
    ensures AfterReads(Response, chunks).position != AtEnd
  {
    hide AfterReads, Flat, Parsed, HeaderText, LineText, InsertAll, CleanEntries, Sorted, Clean, AfterHeaders;
    var i := StateOfPrefix(Response, chunks);
    var q := Flat(chunks[..i]);
    ResponseBase(user);
    if AfterReads(Response, chunks).position == AtEnd {
      EndsAtBody(Response, q);
      assert chunks[..|chunks|] == chunks;
      var rest := [];
      if i < |chunks| { rest := FlatRest(chunks, i); } else { assert q + [] == q; }
      AfterHeadersStable(Response, q, rest);
      BareHeaders(LineText(l), InsertAll([], user));
      EndHasBody(Response, q);
      assert false;
    }
  }

  lemma EndHasBody(kind: Kind, b: string)
    requires Parsed(kind, b).position == AtEnd && kind.Response?
    ensures |Parsed(kind, b).body| > 0
  {
    AfterHeadersBound(kind, b);
    hide AfterHeaders, ContentLength;
  }

  lemma BareHeaders(t: string, h: seq<Entry>)
    requires Clean(t) && CleanEntries(h)
    ensures var b := t + CRLF + HeaderText(h);
            var s := AfterHeaders(Response, b); s.position == AtBody ==> s.firstLineLen + s.headerLen == |b|
  {
    hide ParseLine, Clean, ParsedHeaders, SearchC, CleanEntries;
    LineFound(t, HeaderText(h));
    if h == [] {
      SearchBound(CRLF, CRLF2);
    } else {
      BlankLineFound(h, []);
      assert HeaderText(h) + [] == HeaderText(h);
    }
  }

  lemma ResponseBase(user: seq<Entry>)
    requires Sorted(user) && CleanEntries(user)
    ensures Sorted(InsertAll([], user)) && CleanEntries(InsertAll([], user))
    ensures ToMap(InsertAll([], user)) == ToMap(user)
  {
    InsertAllMerges([], user);
  }

  lemma StatusLineReadsBack(version: Version, code: int, desc: string)
    requires 0 <= code < 1000 && CleanWord(desc)
    ensures var l := StatusLine(version, code, desc);
            ParseLine(Response, LineText(l)) == Accepted(l) && Clean(LineText(l))
  {
    hide CleanWord, Decimal, Stoi, Split;
    var l := StatusLine(version, code, desc);
    WordsAreClean(GET, version);
    PrintedCode(code);
    assert code % 0x1_0000_0000 == code;
    DigitsAreClean(Printed(code, 3));
    LineReadsBack(Response, l, VersionText(version), Printed(code, 3), desc);
  }
}
