/**
 An upgraded connection (`networkmodel/tcpconnection.cc`, `networkmodel/serverbase.cc`): one parser,
 reused for every frame, and a new packet object for each, since the last one may still be with a worker.
 */
module LongLink {
  import opened Chunks
  import opened Octets
  import opened Sequences
  import opened WebSocket
  import opened WebSocketReads
  import opened Wrappers
  import HttpMessage
  import HttpRoundTrip
  import HttpText
  import Numbers
  import HandShake

  // -- The connection on values --

  /** What a worker reads of a packet. */
  datatype Message = Message(first: byte, payload: seq<byte>)

  datatype Link = Link(alive: bool, buffer: seq<byte>, parser: State, delivered: seq<Message>)

  const UPGRADED := Link(true, [], FRESH, [])

  function Read(l: Link, chunk: seq<byte>): Link {
    if !l.alive then l
    else
      var b := l.buffer + chunk;
      var s := Resumed(l.parser, b);
      if s.position == AtError then l.(alive := false, buffer := b, parser := s)
      else if s.position == AtEnd then Link(true, [], FRESH, l.delivered + [Message(s.first, s.payload)])
      else l.(buffer := b, parser := s)
  }

  function ReadAll(l: Link, chunks: seq<seq<byte>>): Link {
    if chunks == [] then l else Read(ReadAll(l, chunks[..|chunks| - 1]), chunks[|chunks| - 1])
  }

  lemma {:induction false} ReadAllConcat(l: Link, a: seq<seq<byte>>, b: seq<seq<byte>>)
    ensures ReadAll(l, a + b) == ReadAll(ReadAll(l, a), b)
  {
    hide Read;
    if b == [] {
      assert a + b == a;
    } else {
      var init := b[..|b| - 1];
      ReadAllConcat(l, a, init);
      assert (a + b)[..|a + b| - 1] == a + init;
    }
  }

  /** Between frames: nothing of the next one has been read. */
  predicate Idle(l: Link) { l.alive && l.buffer == [] && l.parser == FRESH }

  /** The frame's reads have not all come. */
  lemma {:induction false} InsideFrame(l: Link, f: Frame, chunks: seq<seq<byte>>)
    requires Idle(l) && Readable(f) && NonEmptyReads(chunks)
    requires Flat(chunks) <= Bytes(f) && |Flat(chunks)| < |Bytes(f)|
    ensures ReadAll(l, chunks) == l.(buffer := Flat(chunks), parser := AfterReads(chunks))
  {
    hide Bytes, Resumed;
    if chunks != [] {
      InsideFrame(l, f, chunks[..|chunks| - 1]);
      NotDone(f, chunks);
    }
  }

  lemma NotDone(f: Frame, chunks: seq<seq<byte>>)
    requires Readable(f) && NonEmptyReads(chunks) && Flat(chunks) <= Bytes(f) && |Flat(chunks)| < |Bytes(f)|
    ensures AfterReads(chunks).position != AtEnd && AfterReads(chunks).position != AtError
  {
    hide AfterReads, Flat, AfterHeader;
    ReadsState(f, chunks);
    HeaderOpen(Flat(chunks));
  }

  /** One frame, from idle to idle. */
  lemma FrameRead(l: Link, f: Frame, chunks: seq<seq<byte>>)
    requires Idle(l) && Readable(f) && Flat(chunks) == Bytes(f) && NonEmptyReads(chunks)
    ensures ReadAll(l, chunks) == l.(delivered := l.delivered + [Message(f.first, AfterReads(chunks).payload)])
  {
    hide Bytes, Resumed;
    assert chunks != [];
    InsideFrame(l, f, chunks[..|chunks| - 1]);
    CompleteIff(f, chunks);
    if f.masked { MaskedRoundTrip(f, chunks); } else { UnmaskedRoundTrip(f, chunks); }
  }

  // -- A whole conversation --

  /** Frame after frame, as one stream of bytes. */
  function Stream(frames: seq<Frame>): seq<byte> {
    if frames == [] then [] else Bytes(frames[0]) + Stream(frames[1..])
  }

  /** Every frame begins and ends where a read does. */
  ghost predicate FramesCut(frames: seq<Frame>, chunks: seq<seq<byte>>) {
    forall i :: 0 <= i <= |frames| ==> CutAt(chunks, |Stream(frames[..i])|)
  }

  predicate AllReadable(frames: seq<Frame>) { forall i :: 0 <= i < |frames| ==> Readable(frames[i]) }

  /** The reads carry exactly these frames. */
  ghost predicate Carries(frames: seq<Frame>, chunks: seq<seq<byte>>) {
    AllReadable(frames) && NonEmptyReads(chunks) && Flat(chunks) == Stream(frames)
  }

  lemma {:induction false} StreamStep(frames: seq<Frame>, i: nat)
    requires i < |frames|
    ensures |Stream(frames[..i + 1])| == |Bytes(frames[0])| + |Stream(frames[1..][..i])|
  {
    hide Bytes;
    assert frames[..i + 1][1..] == frames[1..][..i];
  }

  /** Behind a first frame that ends with a read, the rest is a conversation of its own. */
  lemma {:induction false} FramesCutFront(frames: seq<Frame>, chunks: seq<seq<byte>>, k: nat)
    requires frames != [] && k <= |chunks| && NonEmptyReads(chunks)
    requires |Flat(chunks[..k])| == |Bytes(frames[0])|
    ensures FramesCut(frames, chunks) <==> FramesCut(frames[1..], chunks[k..])
  {
    hide Bytes, Flat, CutAt;
    forall i | 0 <= i < |frames|
      ensures CutAt(chunks, |Stream(frames[..i + 1])|) <==> CutAt(chunks[k..], |Stream(frames[1..][..i])|)
    {
      StreamStep(frames, i);
      ShiftCut(chunks, k, |Stream(frames[1..][..i])|);
    }
    StartIsCut(frames, chunks);
    if FramesCut(frames, chunks) {
      forall i | 0 <= i <= |frames[1..]|
        ensures CutAt(chunks[k..], |Stream(frames[1..][..i])|)
      {
        assert CutAt(chunks, |Stream(frames[..i + 1])|);
      }
    }
    if FramesCut(frames[1..], chunks[k..]) {
      forall i | 0 <= i <= |frames|
        ensures CutAt(chunks, |Stream(frames[..i])|)
      {
        if i > 0 {
          assert CutAt(chunks[k..], |Stream(frames[1..][..i - 1])|);
        }
      }
    }
  }

  lemma StartIsCut(frames: seq<Frame>, chunks: seq<seq<byte>>)
    ensures CutAt(chunks, |Stream(frames[..0])|)
  {
    assert |Flat(chunks[..0])| == 0;
  }

  lemma {:induction false} FirstCut(frames: seq<Frame>, chunks: seq<seq<byte>>)
    requires frames != [] && FramesCut(frames, chunks)
    ensures CutAt(chunks, |Bytes(frames[0])|)
  {
    hide Bytes, CutAt;
    StreamStep(frames, 0);
    assert CutAt(chunks, |Stream(frames[..1])|);
    assert Stream(frames[1..][..0]) == [];
  }

  /** What is left to read after the first frame. */
  lemma {:induction false} CarriesRest(frames: seq<Frame>, chunks: seq<seq<byte>>, k: nat)
    requires frames != [] && Carries(frames, chunks) && k <= |chunks| && |Flat(chunks[..k])| == |Bytes(frames[0])|
    ensures Carries(frames[1..], chunks[k..]) && NonEmptyReads(chunks[..k]) && Flat(chunks[..k]) == Bytes(frames[0])
  {
    hide Bytes, Flat, Readable;
    NonEmptySlice(chunks, k);
    FlatSplit(chunks, k);
    var n := |Bytes(frames[0])|;
    assert Flat(chunks)[..n] == Flat(chunks[..k]) && Flat(chunks)[n..] == Flat(chunks[k..]);
    assert Stream(frames)[..n] == Bytes(frames[0]) && Stream(frames)[n..] == Stream(frames[1..]);
  }

  /** Every masked frame was cut as its key allows. */
  ghost predicate AllIntact(frames: seq<Frame>, chunks: seq<seq<byte>>)
    requires Carries(frames, chunks) && FramesCut(frames, chunks)
    decreases |frames|
  {
    frames == [] ||
    (FirstCut(frames, chunks);
     var k := CutPlace(chunks, |Bytes(frames[0])|);
     FramesCutFront(frames, chunks, k);
     CarriesRest(frames, chunks, k);
     (frames[0].masked ==> KeyAgrees(frames[0], chunks[..k])) && AllIntact(frames[1..], chunks[k..]))
  }

  function Sent(frames: seq<Frame>): (r: seq<Message>)
    ensures |r| == |frames|
  {
    if frames == [] then [] else [Message(frames[0].first, frames[0].payload)] + Sent(frames[1..])
  }

  /** A read that runs over the end of a frame ends the connection, and nothing of that frame arrives. */
  lemma {:induction false} RunOver(l: Link, f: Frame, chunks: seq<seq<byte>>)
    requires Idle(l) && Readable(f) && NonEmptyReads(chunks) && Compatible(f, Flat(chunks))
    requires |Flat(chunks)| > |Bytes(f)| && !CutAt(chunks, |Bytes(f)|)
    ensures !ReadAll(l, chunks).alive && ReadAll(l, chunks).delivered == l.delivered
  {
    hide Bytes, Resumed, Readable, Compatible, CutAt;
    var init := chunks[..|chunks| - 1];
    var b, n := Flat(chunks), |Flat(init)|;
    SeesWhole(f);
    CutSnoc(f, chunks);
    assert Flat(init) == b[..n];
    CompatiblePrefix(f, b, n);
    if n > |Bytes(f)| {
      RunOver(l, f, init);
    } else if n == |Bytes(f)| {
      CutHere(f, init);
      assert false;
    } else {
      InsideFrame(l, f, init);
      ReadsPastEnd(f, chunks);
    }
  }

  /** Of a frame that can be read the parser sees the true end. */
  lemma SeesWhole(f: Frame)
    requires Readable(f)
    ensures SeenEnd(f) == |Bytes(f)|
  {
  }

  lemma OneIntact(f: Frame, chunks: seq<seq<byte>>)
    requires Readable(f) && Flat(chunks) == Bytes(f) && NonEmptyReads(chunks)
    ensures AfterReads(chunks).payload == f.payload <==> (f.masked ==> KeyAgrees(f, chunks))
  {
    hide AfterReads, Bytes, KeyAgrees;
    if f.masked { MaskedRoundTrip(f, chunks); } else { UnmaskedRoundTrip(f, chunks); }
  }

  /** The outcome of a conversation, on top of what was delivered before. */
  ghost predicate Outcome(l: Link, frames: seq<Frame>, chunks: seq<seq<byte>>)
    requires Carries(frames, chunks)
  {
    var r, n := ReadAll(l, chunks), |l.delivered|;
    if FramesCut(frames, chunks) then
      && Idle(r) && |r.delivered| == n + |frames| && r.delivered[..n] == l.delivered
      && (r.delivered[n..] == Sent(frames) <==> AllIntact(frames, chunks))
    else !r.alive && |r.delivered| < n + |frames|
  }

  lemma {:induction false} StreamRead(l: Link, frames: seq<Frame>, chunks: seq<seq<byte>>)
    requires Idle(l) && Carries(frames, chunks)
    ensures Outcome(l, frames, chunks)
    decreases |frames|
  {
    hide Read, AfterReads, Bytes, KeyAgrees;
    if frames == [] {
      NothingCarried(chunks);
      StartIsCut(frames, chunks);
      assert FramesCut(frames, chunks);
    } else if CutAt(chunks, |Bytes(frames[0])|) {
      FrameThenRest(l, frames, chunks);
    } else {
      FrameRunOver(l, frames, chunks);
    }
  }

  lemma NothingCarried(chunks: seq<seq<byte>>)
    requires NonEmptyReads(chunks) && Flat(chunks) == []
    ensures chunks == []
  {
  }

  lemma {:induction false} FrameRunOver(l: Link, frames: seq<Frame>, chunks: seq<seq<byte>>)
    requires Idle(l) && frames != [] && Carries(frames, chunks) && !CutAt(chunks, |Bytes(frames[0])|)
    ensures Outcome(l, frames, chunks)
  {
    hide Bytes, Idle, ReadAll, Flat, Readable;
    var f := frames[0];
    if FramesCut(frames, chunks) {
      FirstCut(frames, chunks);
      assert false;
    }
    assert chunks[..|chunks|] == chunks;
    assert Compatible(f, Flat(chunks));
    RunOver(l, f, chunks);
  }

  lemma {:induction false} FrameThenRest(l: Link, frames: seq<Frame>, chunks: seq<seq<byte>>)
    requires Idle(l) && frames != [] && Carries(frames, chunks) && CutAt(chunks, |Bytes(frames[0])|)
    ensures Outcome(l, frames, chunks)
    decreases |frames|, 0
  {
    hide Bytes, ReadAll, Flat, Readable, CutAt, KeyAgrees, AfterReads, FramesCut, Stream;
    var f, k := frames[0], CutPlace(chunks, |Bytes(frames[0])|);
    var a, b := chunks[..k], chunks[k..];
    CarriesRest(frames, chunks, k);
    FramesCutFront(frames, chunks, k);
    FrameRead(l, f, a);
    var m := Message(f.first, AfterReads(a).payload);
    var next := l.(delivered := l.delivered + [m]);
    StreamRead(next, frames[1..], b);
    ReadAllConcat(l, a, b);
    assert chunks == a + b;
    OneIntact(f, a);
    if FramesCut(frames, chunks) {
      var r, n := ReadAll(l, chunks).delivered, |l.delivered|;
      assert r[..n + 1] == next.delivered;
      assert r[n..] == [m] + r[n + 1..];
      SplitEqual([m], r[n + 1..], [Message(f.first, f.payload)], Sent(frames[1..]));
      assert r[..n] == r[..n + 1][..n] == l.delivered;
    }
  }

  /**
   Any reads of any number of readable frames: the connection ends idle with one message for each frame
   if every frame ends where a read does, and is closed with messages missing otherwise. The messages are
   the ones sent exactly when every masked frame was cut as its key allows.
   */
  lemma ConversationDelivered(frames: seq<Frame>, chunks: seq<seq<byte>>)
    requires Carries(frames, chunks)
    ensures var l := ReadAll(UPGRADED, chunks);
            && (Idle(l) && |l.delivered| == |frames| <==> FramesCut(frames, chunks))
            && (!l.alive <==> !FramesCut(frames, chunks))
            && (FramesCut(frames, chunks) ==> (l.delivered == Sent(frames) <==> AllIntact(frames, chunks)))
  {
    hide ReadAll, Carries, FramesCut, AllIntact;
    StreamRead(UPGRADED, frames, chunks);
    var l := ReadAll(UPGRADED, chunks);
    assert l.delivered[0..] == l.delivered;
  }

  // -- The connection as the source runs it --

  ghost function Messages(ps: seq<Packet>): (r: seq<Message>)
    reads ps
    ensures |r| == |ps|
  {
    seq(|ps|, i reads ps requires 0 <= i < |ps| => Message(ps[i].first, ps[i].payload))
  }

  class Connection {
    var alive: bool
    var parser: Parser
    var curr: Packet
    /** The packets given to workers, oldest first, and whether each was hand-shaken when given. */
    var handed: seq<Packet>
    ghost var shaken: seq<bool>

    ghost predicate Owned()
      reads this, parser
    {
      && parser.packet == curr
      && curr !in handed
      && (forall i, j :: 0 <= i < j < |handed| ==> handed[i] != handed[j])
      && |shaken| == |handed|
    }

    /** The packet to parse into is the parser's own and hand-shaken; only the first given one was not. */
    ghost predicate Valid()
      reads this, parser, curr
    {
      && Owned()
      && curr.handShaken
      && |handed| >= 1
      && (forall i :: 0 <= i < |handed| ==> (shaken[i] <==> i > 0))
      && Ready(parser.Now(), parser.buffer)
    }

    ghost function View(): Link
      requires |handed| >= 1
      reads this, parser, parser.packet, handed
    {
      Link(alive, parser.buffer, parser.Now(), Messages(handed[1..]))
    }

    /** The upgrade: the handshake's packet goes to a worker at once. */
    constructor ()
      ensures Valid() && fresh(parser) && fresh(curr) && fresh(handed[0])
      ensures View() == UPGRADED && |handed| == 1 && !handed[0].handShaken
    {
      alive := true;
      var p := new Packet(false);
      curr := p;
      parser := new Parser(p);
      handed, shaken := [], [];
      new;
      var _ := MakeRecvContext();
    }

    method MakeRecvContext() returns (p: Packet)
      requires Owned()
      modifies this`curr, this`handed, this`shaken, parser
      ensures p == old(curr)
      ensures handed == old(handed) + [p] && shaken == old(shaken) + [p.handShaken]
      ensures Owned() && fresh(curr) && curr.handShaken
      ensures parser.buffer == [] && parser.Now() == FRESH
    {
      p := curr;
      handed, shaken := handed + [p], shaken + [p.handShaken];
      parser.Reset();
      curr := new Packet(true);
      parser.packet := curr;
    }

    /** `__OnReadEvent` on one read: no packet already given to a worker is written. */
    method OnRead(chunk: seq<byte>)
      requires Valid() && alive
      modifies this, parser, curr
      ensures alive ==> Valid()
      ensures |handed| >= 1 && View() == Read(old(View()), chunk)
      ensures parser == old(parser) && (curr == old(curr) || fresh(curr))
      ensures handed == old(handed) || handed == old(handed) + [old(curr)]
    {
      hide Resumed;
      ghost var before := View();
      ghost var was := parser.buffer;
      parser.buffer := parser.buffer + chunk;
      Grown(parser.Now(), was, chunk);
      var _ := parser.DoParse();
      ghost var s := parser.Now();
      assert Messages(handed[1..]) == before.delivered;
      if parser.position == AtError {
        alive := false;
      } else if parser.position == AtEnd {
        var p := MakeRecvContext();
        assert handed[1..] == old(handed)[1..] + [p];
        assert Messages(handed[1..]) == before.delivered + [Message(s.first, s.payload)];
      } else {
        StaysReady(before.parser, parser.buffer);
      }
    }

    /** `HandleWebSocket`: a worker handshakes on the packet it was given, if it has to, and packs the answer. */
    method HandleWebSocket(p: Packet, req: seq<HttpMessage.Entry>) returns (answer: Option<string>)
      requires Valid() && p in handed
      modifies p`handShaken
      ensures Valid() && View() == old(View())
      ensures p.handShaken == (old(p.handShaken) || HttpMessage.Get(req, HandShake.SEC_KEY).Some?)
      ensures answer == if old(p.handShaken) then None else Some(HandShakeAnswer(req))
    {
      hide HandShake.Reply, HttpMessage.Get, Ready, HttpRoundTrip.BareResponse;
      answer := None;
      if !p.handShaken {
        var ok, resp, sec := HandShake.DoHandShake(req);
        if ok {
          p.handShaken := true;
        }
        var out := HttpRoundTrip.PackResponse(HttpMessage.Http11, if ok then 101 else 404, SWITCHING, resp, None);
        answer := Some(out);
      }
    }
  }

  const SWITCHING: string := "Switching Protocols"

  /** The answer to a handshake: 101 with the reply headers, or 404 without any. */
  function HandShakeAnswer(req: seq<HttpMessage.Entry>): string {
    match HttpMessage.Get(req, HandShake.SEC_KEY)
    case Some(key) =>
      HttpRoundTrip.BareResponse(HttpMessage.StatusLine(HttpMessage.Http11, 101, SWITCHING), HandShake.Reply(key))
    case None =>
      HttpRoundTrip.BareResponse(HttpMessage.StatusLine(HttpMessage.Http11, 404, SWITCHING), [])
  }

  /** The answers, written out. */
  lemma AnswerText(req: seq<HttpMessage.Entry>)
    ensures HandShakeAnswer(req)
         == match HttpMessage.Get(req, "Sec-WebSocket-Key")
            case Some(key) => AnswerLine("101") + ReplyText(key)
            case None => AnswerLine("404") + "\r\n"
  {
    hide HttpMessage.Get, HandShake.Accept, HttpRoundTrip.BareResponse, HandShake.Reply, HttpMessage.HeaderText;
    hide HttpRoundTrip.InsertAll, ReplyText, HttpMessage.VersionText;
    CodeTexts();
    hide Numbers.Decimal;
    var found := HttpMessage.Get(req, "Sec-WebSocket-Key");
    if found.Some? {
      HttpText.PackedResponseText(HttpMessage.Http11, 101, SWITCHING, HandShake.Reply(found.value), []);
      ReplyHeaders(found.value);
    } else {
      HttpText.PackedResponseText(HttpMessage.Http11, 404, SWITCHING, [], []);
      HttpText.HeaderBlock([]);
    }
  }

  function AnswerLine(code: string): string { "HTTP/1.1" + " " + code + " " + "Switching Protocols" + "\r\n" }

  function ReplyText(key: string): string {
    "Connection" + ": " + "Upgrade" + "\r\n"
    + ("Sec-WebSocket-Accept" + ": " + HandShake.Accept(key) + "\r\n"
       + ("Upgrade" + ": " + "websocket" + "\r\n" + "\r\n"))
  }

  lemma CodeTexts()
    ensures Numbers.Decimal(101) == "101" && Numbers.Decimal(404) == "404"
    ensures HttpRoundTrip.InsertAll([], []) == [] && HttpMessage.VersionText(HttpMessage.Http11) == "HTTP/1.1"
  {
    assert Numbers.Decimal(1) == "1" && Numbers.Decimal(4) == "4";
    assert Numbers.Decimal(10) == "10" && Numbers.Decimal(40) == "40";
  }

  lemma ReplyHeaders(key: string)
    ensures HttpMessage.HeaderText(HttpRoundTrip.InsertAll([], HandShake.Reply(key))) == ReplyText(key)
  {
    hide HandShake.Accept, HttpMessage.HeaderText, HandShake.Reply, HttpRoundTrip.InsertAll;
    HandShake.ReplyEntries(key);
    HandShake.InsertedAgain(key);
    var h := HandShake.Reply(key);
    HttpText.HeaderBlock(h);
    HttpText.HeaderBlock(h[1..]);
    HttpText.HeaderBlock(h[1..][1..]);
    assert h[1..][1..][1..] == [];
  }

  lemma Grown(s: State, b: seq<byte>, more: seq<byte>)
    requires Ready(s, b)
    ensures Ready(s, b + more)
  {
    assert (b + more)[..s.resolved] == b[..s.resolved];
  }

  lemma StaysReady(s: State, b: seq<byte>)
    requires Ready(s, b)
    ensures Ready(Resumed(s, b), b)
  {
    ReadyAfter(s, b, []);
    assert b + [] == b;
  }

  /** What can happen to an upgraded connection. */
  datatype Event = Arrive(chunk: seq<byte>) | Handle(packet: nat, request: seq<HttpMessage.Entry>)

  function ChunksOf(events: seq<Event>): seq<seq<byte>> {
    if events == [] then []
    else
      var rest, e := ChunksOf(events[..|events| - 1]), events[|events| - 1];
      if e.Arrive? then rest + [e.chunk] else rest
  }

  /**
   Any run of reads and workers: `DoParse` always finds a hand-shaken packet that no worker holds,
   and what is delivered is what the reads alone determine.
   */
  method Run(events: seq<Event>) returns (c: Connection)
    ensures c.alive ==> c.Valid()
    ensures |c.handed| >= 1 && c.View() == ReadAll(UPGRADED, ChunksOf(events))
  {
    hide Read, ReadAll, Ready;
    c := new Connection();
    var i := 0;
    AllEvents(events);
    NoReads();
    while i < |events|
      invariant 0 <= i <= |events|
      invariant c.alive ==> c.Valid()
      invariant |c.handed| >= 1 && c.View() == ReadAll(UPGRADED, ChunksOf(events[..i]))
      invariant fresh(c) && fresh(c.parser) && fresh(c.curr) && forall p <- c.handed :: fresh(p)
    {
      EventsSnoc(events, i);
      if c.alive {
        match events[i] {
          case Arrive(chunk) => c.OnRead(chunk);
          case Handle(k, request) =>
            if k < |c.handed| {
              var p := c.handed[k];
              assert p in c.handed;
              var _ := c.HandleWebSocket(p, request);
            }
        }
      }
      i := i + 1;
    }
  }

  lemma NoReads()
    ensures ReadAll(UPGRADED, []) == UPGRADED
  {
  }

  lemma AllEvents(events: seq<Event>)
    ensures events[..|events|] == events && ChunksOf(events[..0]) == []
  {
  }

  lemma EventsSnoc(events: seq<Event>, i: nat)
    requires i < |events|
    ensures ReadAll(UPGRADED, ChunksOf(events[..i + 1]))
         == var l := ReadAll(UPGRADED, ChunksOf(events[..i])); if events[i].Arrive? then Read(l, events[i].chunk) else l
    ensures !ReadAll(UPGRADED, ChunksOf(events[..i])).alive ==>
              ReadAll(UPGRADED, ChunksOf(events[..i + 1])) == ReadAll(UPGRADED, ChunksOf(events[..i]))
  {
    hide Resumed;
    assert events[..i + 1][..i] == events[..i];
  }
}
