/** The parser on messages written out, with every fixed text in full. */
module HttpText {
  import opened Wrappers
  import opened Chunks
  import opened StrUtil
  import opened Numbers
  import opened HttpMessage
  import opened HttpParser
  import opened HttpChunks
  import opened HttpRoundTrip

  // -- Requests --

  /** Three words and a line end, headers, body. */
  function RequestText(verb: string, url: string, version: string, h: seq<Entry>, body: string): string {
    verb + " " + url + " " + version + "\r\n" + (HeaderText(h) + body)
  }

  /** What the headers declare, read off the map. */
  function Declared(h: map<string, string>): nat {
    if "Content-Length" in h then StrToUl(h["Content-Length"]) else 0
  }

  predicate AsksUpgrade(h: map<string, string>) {
    "Connection" in h && h["Connection"] == "Upgrade"
  }

  lemma FieldsLookedUp(h: seq<Entry>)
    requires NulFree(h)
    ensures ContentLength(h) == Declared(ToMap(h)) && (IsUpgrade(h) <==> AsksUpgrade(ToMap(h)))
  {
    hide Get, ToMap, StrToUl, NulFree;
    GetIsLookup(h, "Content-Length");
    GetIsLookup(h, "Connection");
  }

  lemma RequestLineRead(verb: string, url: string, version: string)
    requires CleanWord(verb) && CleanWord(url) && CleanWord(version)
    ensures var t := verb + " " + url + " " + version;
            Clean(t) && ParseLine(Request, t) == Accepted(RequestLine(MethodOf(verb), url, VersionOf(version)))
  {
    hide CleanWord, MethodOf, VersionOf, Split, Clean;
    ThreeWords(verb, url, version);
  }

  /**
   Any request of three clean words, one or more clean headers and a body, in one read: a GET is complete
   exactly without a body, any other exactly when the declared length is positive and the body's own; more
   bytes, or no length, are an error, fewer are waited for. A single header is lost.
   */
  lemma RequestTextJudged(verb: string, url: string, version: string, h: seq<Entry>, body: string)
    requires CleanWord(verb) && CleanWord(url) && CleanWord(version)
    requires Sorted(h) && CleanEntries(h) && h != []
    ensures var b, kept := RequestText(verb, url, version, h, body), if |h| == 1 then [] else h;
            var r, n := Parsed(Request, b), Declared(ToMap(kept));
            && r.position == (if verb == "GET" then (if body == [] then AtEnd else AtError)
                              else if n == 0 || n < |body| then AtError
                              else if n == |body| then AtEnd else AtBody)
            && r.line == RequestLine(MethodOf(verb), url, VersionOf(version)) && r.headers == kept
            && (r.upgrade <==> AsksUpgrade(ToMap(kept)))
            && (r.position == AtEnd ==> r.resolved == |b| && r.body == body)
  {
    hide CleanWord, Clean, CleanEntries, Sorted, ParseLine, HeaderText, AfterHeaders, ContentLength;
    hide IsUpgrade, Declared, AsksUpgrade, VersionOf;
    var t := verb + " " + url + " " + version;
    var l := RequestLine(MethodOf(verb), url, VersionOf(version));
    var kept := if |h| == 1 then [] else h;
    var b := t + CRLF + (HeaderText(h) + body);
    RequestLineRead(verb, url, version);
    PackedHeadersRead(Request, t, l, h, body);
    CleanIsNulFree(h);
    FieldsLookedUp(kept);
    assert b[|t| + 2 + |HeaderText(h)|..] == body;
    OnlyGet(verb);
    if verb != "GET" {
      BodyJudged(Request, t, l, kept, |HeaderText(h)|, b, body);
    }
  }

  lemma OnlyGet(verb: string)
    ensures MethodOf(verb) == GET <==> verb == "GET"
    ensures MethodOf(verb) == POST <==> verb == "POST"
    ensures MethodOf(verb) == DELETE <==> verb == "DELETE"
  {
  }

  /** GET requests under every chunking: complete at the last byte with line and headers and no body. */
  lemma GetRoundTrip(url: string, version: string, h: seq<Entry>, chunks: seq<string>)
    requires CleanWord(url) && CleanWord(version) && Sorted(h) && CleanEntries(h) && |h| >= 2
    requires Flat(chunks) == "GET " + url + " " + version + "\r\n" + HeaderText(h) && NonEmptyReads(chunks)
    ensures var r := AfterReads(Request, chunks);
            && r.position == AtEnd && r.resolved == |Flat(chunks)|
            && r.line == RequestLine(GET, url, VersionOf(version)) && r.headers == h && r.body == []
            && (r.upgrade <==> AsksUpgrade(ToMap(h)))
  {
    hide CleanWord, CleanEntries, Sorted, HeaderText, AfterReads, Flat, Parsed, ToMap, AsksUpgrade, VersionOf;
    PlainIsClean("GET");
    RequestTextJudged("GET", url, version, h, []);
    assert HeaderText(h) + [] == HeaderText(h);
    assert "GET" + " " == "GET ";
    CompleteUnderAnyChunking(Request, Flat(chunks), chunks);
  }

  /** A GET request without any header never gets past its headers. */
  lemma GetWithoutHeaders(url: string, version: string, chunks: seq<string>)
    requires CleanWord(url) && CleanWord(version)
    requires Flat(chunks) == "GET " + url + " " + version + "\r\n" + "\r\n" && NonEmptyReads(chunks)
    ensures AfterReads(Request, chunks).position == AtHeaders
  {
    hide CleanWord, AfterReads, Flat, Clean, ParseLine, SearchC;
    PlainIsClean("GET");
    RequestLineRead("GET", url, version);
    var t := "GET" + " " + url + " " + version;
    assert "GET" + " " == "GET ";
    LineFound(t, "\r\n");
    SearchBound("\r\n", CRLF2);
    VerdictOfReads(Request, chunks);
  }

  /** The first line of a request is read exactly when it has three words. */
  lemma RequestLineWords(words: seq<string>, rest: string)
    requires words != [] && forall i :: 0 <= i < |words| ==> CleanWord(words[i])
    ensures AfterLine(Request, Join(words, " ") + "\r\n" + rest).position == if |words| == 3 then AtHeaders else AtError
  {
    hide Clean, CleanWord, SearchC, Join, ParseLine;
    JoinClean(words);
    LineFound(Join(words, " "), rest);
    WordsRead(words);
  }

  lemma WordsRead(words: seq<string>)
    requires words != [] && forall i :: 0 <= i < |words| ==> CleanWord(words[i])
    ensures var r := ParseLine(Request, Join(words, " ")); if |words| == 3 then r.Accepted? else r.Rejected?
  {
    hide CleanWord, Split, Join, MethodOf, VersionOf, Stoi;
    CleanWordsSplit(words);
  }

  lemma CleanWordsSplit(words: seq<string>)
    requires words != [] && forall i :: 0 <= i < |words| ==> CleanWord(words[i])
    ensures Split(Join(words, " "), " ") == if |words| == 1 then [] else words
  {
    hide Clean, Absent, Split, Join;
    SplitOfJoin(words, " ");
  }

  lemma {:induction false} JoinClean(words: seq<string>)
    requires words != [] && forall i :: 0 <= i < |words| ==> CleanWord(words[i])
    ensures Clean(Join(words, " "))
  {
    hide Clean;
    if |words| > 1 {
      JoinClean(words[1..]);
      WordsTogether(words[0], Join(words[1..], " "));
    }
  }

  // -- Responses --

  /** A status line of three clean words, by what `stoi` reads in the second. */
  lemma StatusTextJudged(version: string, code: string, desc: string)
    requires CleanWord(version) && CleanWord(code) && CleanWord(desc)
    ensures var r := ParseLine(Response, version + " " + code + " " + desc);
            match Stoi(code)
            case None => r == Threw(StatusLine(VersionOf(version), 200, desc))
            case Some(c) =>
              r == if 0 <= c <= 1000 then Accepted(StatusLine(VersionOf(version), c, desc))
                   else Rejected(StatusLine(VersionOf(version), c, desc))
  {
    hide CleanWord, Clean, Split, Stoi, VersionOf;
    ThreeWords(version, code, desc);
  }

  /** A code of digits is accepted up to 1000, refused up to 2^31 - 1, and beyond that `stoi` throws. */
  lemma DigitCodeJudged(version: string, code: string, desc: string)
    requires CleanWord(version) && CleanWord(desc) && code != [] && AllDigits(code)
    ensures var r := ParseLine(Response, version + " " + code + " " + desc);
            && (r.Accepted? <==> Value(code) <= 1000) && (r.Threw? <==> Value(code) > 0x7fff_ffff)
            && (r.Accepted? ==> r.line == StatusLine(VersionOf(version), Value(code), desc))
  {
    hide CleanWord, ParseLine, Value, VersionOf;
    DigitsAreClean(code);
    StatusTextJudged(version, code, desc);
    ReadDigits(code);
  }

  // -- Headers --

  /** A map from entries in any order: of two with one key the later one counts. */
  function LastWins(es: seq<Entry>): map<string, string> {
    if es == [] then map[] else LastWins(es[..|es| - 1])[es[|es| - 1].0 := es[|es| - 1].1]
  }

  /** Two or more header lines, in any order and with keys repeated, are all read, and the later ones count. */
  lemma HeadersAnyOrder(es: seq<Entry>)
    requires CleanEntries(es) && |es| >= 2
    ensures var r := ParsedHeaders(Join(Lines(es), "\r\n"), []);
            r.0 && Sorted(r.1) && ToMap(r.1) == LastWins(es)
  {
    hide CleanEntries, Join, Lines, Split, LastWins, ToMap, Sorted;
    LinesAreClean(es);
    LinesCount(es);
    hide Absent;
    SplitOfJoin(Lines(es), CRLF);
    LinesInserted(es, []);
    InsertedLast(es);
  }

  lemma LinesCount(es: seq<Entry>)
    ensures |Lines(es)| == |es|
  {
  }

  lemma {:induction false} LinesInserted(es: seq<Entry>, h: seq<Entry>)
    requires CleanEntries(es)
    ensures InsertLines(Lines(es), h) == (true, InsertAll(h, es))
    decreases |es|
  {
    hide Split, Insert, CleanField, EntryText;
    if es != [] {
      EntryLine(es[0]);
      LinesInserted(es[1..], Insert(h, es[0].0, es[0].1));
    }
  }

  lemma {:induction false} InsertAllSnoc(h: seq<Entry>, es: seq<Entry>, e: Entry)
    ensures InsertAll(h, es + [e]) == Insert(InsertAll(h, es), e.0, e.1)
    decreases |es|
  {
    hide Insert;
    if es == [] {
      assert es + [e] == [e] && [e][1..] == [];
    } else {
      assert (es + [e])[1..] == es[1..] + [e];
      InsertAllSnoc(Insert(h, es[0].0, es[0].1), es[1..], e);
    }
  }

  lemma {:induction false} InsertedLast(es: seq<Entry>)
    ensures Sorted(InsertAll([], es)) && ToMap(InsertAll([], es)) == LastWins(es)
  {
    hide Insert, Less, InsertAll;
    if es == [] {
      NothingInserted();
    } else {
      var init, e := es[..|es| - 1], es[|es| - 1];
      InsertedLast(init);
      InsertAllSnoc([], init, e);
      assert es == init + [e];
      InsertKeepsOrder(InsertAll([], init), e.0, e.1);
      InsertUpdates(InsertAll([], init), e.0, e.1);
    }
  }

  lemma NothingInserted()
    ensures InsertAll([], []) == []
  {
  }

  /** A header line that is not one key and one value makes the block an error. */
  lemma BadHeaderLine(kind: Kind, t: string, lines: seq<string>, bad: nat, body: string)
    requires Clean(t) && ParseLine(kind, t).Accepted? && |lines| >= 2 && bad < |lines|
    requires forall i :: 0 <= i < |lines| ==> lines[i] != [] && Clean(lines[i])
    requires |Split(lines[bad], ": ")| != 2
    ensures Parsed(kind, t + "\r\n" + (Join(lines, "\r\n") + "\r\n\r\n" + body)).position == AtError
  {
    hide Join, Split, SearchC, ParseLine, Absent;
    var rest := Join(lines, CRLF) + CRLF2 + body;
    LineFound(t, rest);
    BlankLineAfter(lines, body);
    JoinHasNoNul(lines);
    assert rest[..|Join(lines, CRLF)| + 4] == Join(lines, CRLF) + CRLF2;
    SearchFound(rest, CRLF2, |Join(lines, CRLF)|);
    assert rest[..|Join(lines, CRLF)|] == Join(lines, CRLF);
    SplitOfJoin(lines, CRLF);
    BadLineFails(lines, [], bad);
  }

  lemma {:induction false} JoinHasNoNul(lines: seq<string>)
    requires forall i :: 0 <= i < |lines| ==> Clean(lines[i])
    ensures NUL !in Join(lines, CRLF)
  {
    if |lines| > 1 { JoinHasNoNul(lines[1..]); }
  }

  lemma {:induction false} BadLineFails(lines: seq<string>, h: seq<Entry>, bad: nat)
    requires bad < |lines| && |Split(lines[bad], ": ")| != 2
    ensures !InsertLines(lines, h).0
    decreases |lines|
  {
    hide Split, Insert;
    var pair := Split(lines[0], ": ");
    if bad > 0 && |pair| == 2 {
      BadLineFails(lines[1..], Insert(h, pair[0], pair[1]), bad - 1);
    }
  }

  // -- What the packers write --

  /** The header block, line by line. */
  lemma HeaderBlock(h: seq<Entry>)
    ensures HeaderText([]) == "\r\n"
    ensures h != [] ==> HeaderText(h) == h[0].0 + ": " + h[0].1 + "\r\n" + HeaderText(h[1..])
  {
  }

  /** The packed request, written out. */
  lemma PackedRequestText(host: string, url: string, user: seq<Entry>, body: string)
    requires CleanField(host) && Sorted(user) && CleanEntries(user)
    ensures PackedRequest(host, url, user, body)
         == RequestText("POST", url, "HTTP/1.1", RequestHeaders(host, user, |body|), body)
    ensures ToMap(RequestHeaders(host, user, |body|))
         == map["Host" := host, "Connection" := "close"] + ToMap(user) + map["Content-Length" := Printed(|body|, 8)]
  {
    hide RequestHeaders, ToMap, HeaderText, CleanField, CleanEntries, Sorted;
    ThreeJoined("POST", url, "HTTP/1.1");
    RequestHeadersMerge(host, user, |body|);
  }

  lemma ThreeJoined(a: string, b: string, c: string)
    ensures Join([a, b, c], " ") == a + " " + b + " " + c
  {
    assert [a, b, c][1..] == [b, c] && [b, c][1..] == [c];
    assert Join([b, c], " ") == b + " " + c;
  }

  /** The packed response, written out. */
  lemma PackedResponseText(version: Version, code: nat, desc: string, user: seq<Entry>, body: string)
    requires code < 1000
    ensures var line := VersionText(version) + " " + Decimal(code) + " " + desc + "\r\n";
            && PackedResponse(StatusLine(version, code, desc), user, body)
            == line + (HeaderText(Insert(InsertAll([], user), "Content-Length", Printed(|body|, 8))) + body)
            && BareResponse(StatusLine(version, code, desc), user) == line + HeaderText(InsertAll([], user))
  {
    hide HeaderText, Insert, InsertAll, VersionText, Decimal, LineText, Printed;
    StatusLineText(version, code, desc);
  }

  lemma StatusLineText(version: Version, code: nat, desc: string)
    requires code < 1000
    ensures LineText(StatusLine(version, code, desc)) == VersionText(version) + " " + Decimal(code) + " " + desc
  {
    hide VersionText, Decimal, Join, LineText, Printed, Stoi;
    PrintedCode(code);
    StatusText(StatusLine(version, code, desc));
    assert code % 0x1_0000_0000 == code;
    ThreeJoined(VersionText(version), Decimal(code), desc);
  }

  lemma VersionTexts()
    ensures VersionText(Http09) == "HTTP/0.9" && VersionText(Http10) == "HTTP/1.0"
    ensures VersionText(Http11) == "HTTP/1.1" && VersionText(Http20) == "HTTP/2.0"
    ensures VersionOf("HTTP/0.9") == Http09 && VersionOf("HTTP/1.0") == Http10
    ensures VersionOf("HTTP/1.1") == Http11 && VersionOf("HTTP/2.0") == Http20
    ensures forall s :: s !in {"HTTP/0.9", "HTTP/1.0", "HTTP/1.1", "HTTP/2.0"} ==> VersionOf(s) == UnknownVersion
  {
  }
}
