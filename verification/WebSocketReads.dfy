/** What the frame parser arrives at when a frame comes in any sequence of reads. */
module WebSocketReads {
  import opened Chunks
  import opened Octets
  import opened Sequences
  import opened WebSocket

  function AfterReads(chunks: seq<seq<byte>>): State {
    if chunks == [] then FRESH else Resumed(AfterReads(chunks[..|chunks| - 1]), Flat(chunks))
  }

  /** How many payload bytes the first n bytes of a frame hold. */
  function Offset(f: Frame, n: nat): nat {
    if n <= HeaderLen(f) then 0 else n - HeaderLen(f)
  }

  function ParsedKey(f: Frame): Key { if f.masked then f.key else NO_KEY }

  /** What one read that covers payload bytes i to j contributes. */
  function Piece(f: Frame, i: nat, j: nat): (r: seq<byte>)
    requires i <= j <= |f.payload|
    ensures |r| == j - i
  {
    if f.masked then Masked(Body(f)[i..j], f.key) else Body(f)[i..j]
  }

  /** The payload after these reads, piece by piece. */
  function Decoded(f: Frame, chunks: seq<seq<byte>>): (r: seq<byte>)
    requires Flat(chunks) <= Bytes(f)
    ensures |r| == Offset(f, |Flat(chunks)|)
  {
    if chunks == [] then []
    else
      var init := chunks[..|chunks| - 1];
      Decoded(f, init) + Piece(f, Offset(f, |Flat(init)|), Offset(f, |Flat(chunks)|))
  }

  /** Where the parser takes a frame to end: after as many payload bytes as the seven-bit length says. */
  function SeenEnd(f: Frame): nat { HeaderLen(f) + ShortLen(|f.payload|) }

  function HeaderState(f: Frame): State {
    State(AtPayload, HeaderLen(f), f.first, f.masked, ShortLen(|f.payload|), ParsedKey(f), [])
  }

  /** The state that reads up to the end the parser sees must lead to. */
  function Expected(f: Frame, chunks: seq<seq<byte>>): State
    requires Flat(chunks) <= Bytes(f)
  {
    var n := |Flat(chunks)|;
    if n <= HeaderLen(f) then AfterHeader(Flat(chunks))
    else
      HeaderState(f).(
        position := if n == SeenEnd(f) then AtEnd else AtPayload, resolved := n, payload := Decoded(f, chunks))
  }

  lemma HeaderRead(f: Frame)
    ensures AfterHeader(Header(f)) == HeaderState(f)
  {
    hide BigEndian;
    var h, c := Header(f), ShortLen(|f.payload|);
    var e := ExtraLen(c);
    assert h[0] == f.first && h[1] == if f.masked then 128 + c else c;
    if f.masked {
      assert h[2 + e..6 + e] == f.key;
    }
  }

  lemma HeaderReadIn(f: Frame, b: seq<byte>)
    requires b <= Bytes(f) && |b| >= HeaderLen(f)
    ensures AfterHeader(b) == HeaderState(f)
  {
    hide AfterHeader, Header, Body;
    var h := HeaderLen(f);
    HeaderRead(f);
    assert b[..h] == Bytes(f)[..h] == Header(f);
    HeaderDone(b, h);
  }

  lemma BodyPart(f: Frame, b: seq<byte>, n: nat)
    requires b <= Bytes(f) && HeaderLen(f) <= n <= |b|
    ensures var h := HeaderLen(f); b[n..] == Body(f)[n - h..|b| - h]
  {
    hide Header, Body;
    var h := HeaderLen(f);
    assert b[n..] == Bytes(f)[n..|b|];
    assert Bytes(f)[n..|b|] == Body(f)[n - h..|b| - h];
  }

  /** The first read to reach the payload. */
  lemma EntersPayload(f: Frame, b: seq<byte>)
    requires b <= Bytes(f) && HeaderLen(f) < |b|
    ensures AfterAll(b) == AfterPayload(HeaderState(f), b)
    ensures b[HeaderLen(f)..] == Body(f)[0..|b| - HeaderLen(f)]
  {
    hide AfterHeader, AfterPayload, Header, Body, Bytes;
    HeaderReadIn(f, b);
    BodyPart(f, b, HeaderLen(f));
  }

  lemma PayloadStep(f: Frame, s: State, b: seq<byte>)
    requires b <= Bytes(f) && HeaderLen(f) <= s.resolved < |b|
    requires s.masked == f.masked && (f.masked ==> s.key == f.key)
    requires s.len == ShortLen(|f.payload|) && |s.payload| == s.resolved - HeaderLen(f)
    ensures AfterPayload(s, b) == s.(
              resolved := |b|,
              payload := s.payload + Piece(f, s.resolved - HeaderLen(f), |b| - HeaderLen(f)),
              position := if |b| == SeenEnd(f) then AtEnd else if |b| > SeenEnd(f) then AtError else AtPayload)
  {
    hide Bytes, Body;
    BodyPart(f, b, s.resolved);
  }

  /** Up to the end the parser sees, the state is known byte for byte, whatever the reads. */
  lemma {:induction false} ReadsState(f: Frame, chunks: seq<seq<byte>>)
    requires Flat(chunks) <= Bytes(f) && |Flat(chunks)| <= SeenEnd(f) && NonEmptyReads(chunks)
    ensures AfterReads(chunks) == Expected(f, chunks)
  {
    hide Bytes, AfterHeader, AfterPayload, Piece, HeaderLen;
    if chunks == [] {
      NothingRead();
    } else {
      var init := chunks[..|chunks| - 1];
      ReadsState(f, init);
      var b, n := Flat(chunks), |Flat(init)|;
      if n <= HeaderLen(f) {
        assert Flat(init) == b[..n];
        ResumedHeader(b, n);
        if |b| <= HeaderLen(f) {
          StillHeader(f, b);
        } else {
          NothingDecoded(f, init);
          EntersPayload(f, b);
          PayloadStep(f, HeaderState(f), b);
        }
      } else {
        PayloadStep(f, AfterReads(init), b);
      }
    }
  }

  lemma StillHeader(f: Frame, b: seq<byte>)
    requires b <= Bytes(f) && |b| <= HeaderLen(f)
    ensures AfterAll(b) == AfterHeader(b)
  {
    hide Bytes, AfterHeader;
    if |b| == HeaderLen(f) { HeaderReadIn(f, b); }
    else if AfterHeader(b).position == AtPayload {
      assert Bytes(f)[..|b|] == b;
      HeaderDone(Bytes(f), |b|);
      HeaderReadIn(f, Bytes(f));
      HeaderStuck(b);
    }
  }

  lemma NothingRead()
    ensures AfterHeader([]) == FRESH
  {
  }

  lemma NothingDecoded(f: Frame, chunks: seq<seq<byte>>)
    requires Flat(chunks) <= Bytes(f) && |Flat(chunks)| <= HeaderLen(f)
    ensures Decoded(f, chunks) == []
  {
  }

  // -- Which frames are read to their end --

  /** Some read ends where the parser takes the frame to end. */
  ghost predicate CutAtSeenEnd(f: Frame, chunks: seq<seq<byte>>) {
    CutAt(chunks, SeenEnd(f))
  }

  lemma {:induction false} PrefixLength(chunks: seq<seq<byte>>, i: nat)
    requires i <= |chunks|
    ensures |Flat(chunks[..i])| <= |Flat(chunks)|
  {
    if i == |chunks| {
      assert chunks[..i] == chunks;
    } else {
      var init := chunks[..|chunks| - 1];
      PrefixLength(init, i);
      assert init[..i] == chunks[..i];
    }
  }

  lemma CutSnoc(f: Frame, chunks: seq<seq<byte>>)
    requires chunks != []
    ensures CutAtSeenEnd(f, chunks) <==> CutAtSeenEnd(f, chunks[..|chunks| - 1]) || |Flat(chunks)| == SeenEnd(f)
  {
    hide SeenEnd, Flat;
    var init := chunks[..|chunks| - 1];
    assert forall i :: 0 <= i <= |init| ==> init[..i] == chunks[..i];
    assert chunks[..|chunks|] == chunks;
  }

  /** The stream begins like the frame, as far as both go. */
  predicate Compatible(f: Frame, b: seq<byte>) { b <= Bytes(f) || Bytes(f) <= b }

  lemma CompatiblePrefix(f: Frame, b: seq<byte>, n: nat)
    requires Compatible(f, b) && n <= |b|
    ensures Compatible(f, b[..n]) && (n <= |Bytes(f)| ==> b[..n] <= Bytes(f))
    ensures |b| >= HeaderLen(f) ==> Header(f) <= b
  {
    hide Header, Body;
  }

  /** A read beyond the end the parser sees is an error, whatever the bytes behind that end are. */
  lemma Overrun(f: Frame, s: State, b: seq<byte>)
    requires Header(f) <= b && SeenEnd(f) < |b|
    requires HeaderLen(f) <= s.resolved < |b|
    requires s.len == ShortLen(|f.payload|) && |s.payload| == s.resolved - HeaderLen(f)
    ensures AfterPayload(s, b).position == AtError
  {
    hide Header, Masked;
  }

  /** So is one from within the header. */
  lemma OverrunFromHeader(f: Frame, b: seq<byte>)
    requires Header(f) <= b && SeenEnd(f) < |b|
    ensures AfterAll(b).position == AtError
  {
    hide AfterHeader, AfterPayload, Header;
    var h := HeaderLen(f);
    assert b[..h] == Header(f);
    HeaderRead(f);
    HeaderDone(b, h);
    Overrun(f, HeaderState(f), b);
  }

  /**
   Reads past the end the parser sees, in a stream that may go on after the frame: the parse has ended
   there if a read happened to stop there, and is an error otherwise. An empty payload is never ended.
   */
  lemma {:induction false} ReadsPastEnd(f: Frame, chunks: seq<seq<byte>>)
    requires Compatible(f, Flat(chunks)) && |Flat(chunks)| > SeenEnd(f) && NonEmptyReads(chunks)
    ensures AfterReads(chunks).position == if CutAtSeenEnd(f, chunks) && f.payload != [] then AtEnd else AtError
    ensures AfterReads(chunks).position == AtEnd ==> AfterReads(chunks).resolved == SeenEnd(f)
  {
    hide Bytes, AfterHeader, AfterPayload, Piece, HeaderLen, CutAtSeenEnd, Compatible, ShortLen;
    var init := chunks[..|chunks| - 1];
    var b, n := Flat(chunks), |Flat(init)|;
    CutSnoc(f, chunks);
    SeenEndInside(f);
    assert Flat(init) == b[..n];
    CompatiblePrefix(f, b, n);
    if n > SeenEnd(f) {
      ReadsPastEnd(f, init);
    } else {
      ReadsState(f, init);
      if n == SeenEnd(f) && f.payload != [] {
        CutHere(f, init);
        SeenEndPosition(f, init);
      } else {
        if n < SeenEnd(f) { NotCutYet(f, init); }
        if n <= HeaderLen(f) {
          ResumedHeader(b, n);
          OverrunFromHeader(f, b);
        } else {
          Overrun(f, AfterReads(init), b);
        }
      }
    }
  }

  lemma SeenEndInside(f: Frame)
    ensures HeaderLen(f) <= SeenEnd(f) <= |Bytes(f)|
    ensures HeaderLen(f) == SeenEnd(f) <==> f.payload == []
  {
  }

  lemma CutHere(f: Frame, chunks: seq<seq<byte>>)
    requires |Flat(chunks)| == SeenEnd(f)
    ensures CutAtSeenEnd(f, chunks)
  {
    assert chunks[..|chunks|] == chunks;
  }

  lemma NotCutYet(f: Frame, chunks: seq<seq<byte>>)
    requires |Flat(chunks)| < SeenEnd(f)
    ensures !CutAtSeenEnd(f, chunks)
  {
    hide SeenEnd, Flat;
    forall i | 0 <= i <= |chunks|
      ensures |Flat(chunks[..i])| < SeenEnd(f)
    {
      PrefixLength(chunks, i);
    }
  }

  lemma SeenEndPosition(f: Frame, chunks: seq<seq<byte>>)
    requires Flat(chunks) <= Bytes(f) && |Flat(chunks)| == SeenEnd(f) && f.payload != []
    ensures Expected(f, chunks).position == AtEnd && Expected(f, chunks).resolved == SeenEnd(f)
  {
  }

  /**
   A frame of the standard is read to its last byte, under any chunking, exactly when its payload
   has 1 to 126 bytes: an empty payload is never finished, and a longer one ends early or in error.
   */
  lemma CompleteIff(f: Frame, chunks: seq<seq<byte>>)
    requires Flat(chunks) == Bytes(f) && NonEmptyReads(chunks)
    ensures var s := AfterReads(chunks);
            s.position == AtEnd && s.resolved == |Bytes(f)| <==> 1 <= |f.payload| <= 126
    ensures |f.payload| > 126 ==> AfterReads(chunks).position == if CutAtSeenEnd(f, chunks) then AtEnd else AtError
  {
    hide AfterReads, Flat, CutAtSeenEnd;
    if |f.payload| <= 126 {
      ReadsState(f, chunks);
      if |f.payload| == 0 {
        HeaderReadIn(f, Bytes(f));
      }
    } else {
      ReadsPastEnd(f, chunks);
    }
  }

  // -- What is read --

  predicate Readable(f: Frame) { 1 <= |f.payload| <= 126 }

  /** Unmasked frames, all that `Pack` writes below 126 bytes among them, survive every chunking. */
  lemma UnmaskedRoundTrip(f: Frame, chunks: seq<seq<byte>>)
    requires Readable(f) && !f.masked && Flat(chunks) == Bytes(f) && NonEmptyReads(chunks)
    ensures AfterReads(chunks) == State(AtEnd, |Bytes(f)|, f.first, false, |f.payload|, NO_KEY, f.payload)
  {
    ReadsState(f, chunks);
    UnmaskedDecoded(f, chunks);
  }

  lemma PackedRoundTrip(content: seq<byte>, out: seq<byte>, chunks: seq<seq<byte>>)
    requires 1 <= |content| < 126
    requires out == [0x81, |content|] + content
    requires Flat(chunks) == out && NonEmptyReads(chunks)
    ensures AfterReads(chunks).position == AtEnd && AfterReads(chunks).resolved == |out|
    ensures AfterReads(chunks).payload == content
  {
    hide AfterReads, Flat;
    TextBytes(content);
    assert [0x81, |content|] + BigEndian(|content|, 0) + content == out;
    UnmaskedRoundTrip(TextFrame(content), chunks);
  }

  lemma {:induction false} UnmaskedDecoded(f: Frame, chunks: seq<seq<byte>>)
    requires !f.masked && Flat(chunks) <= Bytes(f)
    ensures Decoded(f, chunks) == f.payload[..Offset(f, |Flat(chunks)|)]
  {
    hide Bytes;
    if chunks != [] {
      UnmaskedDecoded(f, chunks[..|chunks| - 1]);
    }
  }

  /** Every payload byte meets, at its place in its read, the key byte it was masked with. */
  ghost predicate KeyAgrees(f: Frame, chunks: seq<seq<byte>>)
    requires Flat(chunks) <= Bytes(f)
  {
    chunks == [] ||
    var init := chunks[..|chunks| - 1];
    && KeyAgrees(f, init)
    && PieceAgrees(f.key, Offset(f, |Flat(init)|), Offset(f, |Flat(chunks)|))
  }

  predicate AgreesAt(key: Key, start: nat, m: nat) { key[m % 4] == key[(start + m) % 4] }

  ghost predicate PieceAgrees(key: Key, i: nat, j: nat) {
    forall m :: 0 <= m < j - i ==> AgreesAt(key, i, m)
  }

  lemma ByteExact(f: Frame, i: nat, j: nat, m: nat)
    requires f.masked && i <= j <= |f.payload| && m < j - i
    ensures Piece(f, i, j)[m] == f.payload[i..j][m] <==> AgreesAt(f.key, i, m)
  {
    hide Xor;
    var x := Body(f)[i + m];
    assert Body(f)[i..j][m] == x;
    XorInvolution(f.payload[i + m], f.key[(i + m) % 4]);
    XorInjective(x, f.key[m % 4], f.key[(i + m) % 4]);
  }

  lemma PieceExact(f: Frame, i: nat, j: nat)
    requires f.masked && i <= j <= |f.payload|
    ensures Piece(f, i, j) == f.payload[i..j] <==> PieceAgrees(f.key, i, j)
  {
    hide Piece, AgreesAt;
    forall m | 0 <= m < j - i
      ensures Piece(f, i, j)[m] == f.payload[i..j][m] <==> AgreesAt(f.key, i, m)
    {
      ByteExact(f, i, j, m);
    }
  }

  lemma {:induction false} MaskedDecoded(f: Frame, chunks: seq<seq<byte>>)
    requires f.masked && Flat(chunks) <= Bytes(f)
    ensures Decoded(f, chunks) == f.payload[..Offset(f, |Flat(chunks)|)] <==> KeyAgrees(f, chunks)
  {
    hide Bytes, Piece, PieceAgrees;
    if chunks != [] {
      var init := chunks[..|chunks| - 1];
      MaskedDecoded(f, init);
      var i, j := Offset(f, |Flat(init)|), Offset(f, |Flat(chunks)|);
      PieceExact(f, i, j);
      SplitEqual(Decoded(f, init), Piece(f, i, j), f.payload[..i], f.payload[i..j]);
      assert f.payload[..j] == f.payload[..i] + f.payload[i..j];
    }
  }

  /**
   Masked frames: every chunking ends the frame at its last byte, and the payload is the original
   exactly when the key bytes agree with the places where the reads cut the payload.
   */
  lemma MaskedRoundTrip(f: Frame, chunks: seq<seq<byte>>)
    requires Readable(f) && f.masked && Flat(chunks) == Bytes(f) && NonEmptyReads(chunks)
    ensures var s := AfterReads(chunks); s == State(AtEnd, |Bytes(f)|, f.first, true, |f.payload|, f.key, s.payload)
    ensures AfterReads(chunks).payload == f.payload <==> KeyAgrees(f, chunks)
  {
    hide Bytes, KeyAgrees, Decoded;
    ReadsState(f, chunks);
    MaskedDecoded(f, chunks);
    assert f.payload[..|f.payload|] == f.payload;
  }

  /** Reads that reach the payload start on a multiple of four of its bytes. */
  ghost predicate CutsOnFours(f: Frame, chunks: seq<seq<byte>>) {
    forall i :: 0 <= i < |chunks| ==> Offset(f, |Flat(chunks[..i])|) % 4 == 0
  }

  predicate Distinct(key: Key) { forall a, b :: 0 <= a < b < 4 ==> key[a] != key[b] }

  /** Cuts on multiples of four are enough for every key, and needed when its bytes all differ. */
  lemma {:induction false} CutsDecide(f: Frame, chunks: seq<seq<byte>>)
    requires Flat(chunks) <= Bytes(f) && NonEmptyReads(chunks)
    ensures CutsOnFours(f, chunks) ==> KeyAgrees(f, chunks)
    ensures Distinct(f.key) && KeyAgrees(f, chunks) ==> CutsOnFours(f, chunks)
  {
    hide Bytes, PieceAgrees, CutsOnFours, Distinct;
    if chunks == [] {
      NoCuts(f);
    } else {
      var init := chunks[..|chunks| - 1];
      CutsDecide(f, init);
      CutsSnoc(f, chunks);
      var i, j := Offset(f, |Flat(init)|), Offset(f, |Flat(chunks)|);
      OnePieceDecides(f.key, i, j);
      assert i > 0 ==> i < j;
    }
  }

  lemma NoCuts(f: Frame)
    ensures CutsOnFours(f, [])
  {
  }

  lemma CutsSnoc(f: Frame, chunks: seq<seq<byte>>)
    requires chunks != []
    ensures var init := chunks[..|chunks| - 1];
            CutsOnFours(f, chunks) <==> CutsOnFours(f, init) && Offset(f, |Flat(init)|) % 4 == 0
  {
    hide Offset, Flat;
    var init := chunks[..|chunks| - 1];
    assert forall i :: 0 <= i < |init| ==> init[..i] == chunks[..i];
    if CutsOnFours(f, chunks) {
      assert Offset(f, |Flat(chunks[..|init|])|) % 4 == 0;
    }
  }

  lemma OnePieceDecides(key: Key, i: nat, j: nat)
    ensures i % 4 == 0 ==> PieceAgrees(key, i, j)
    ensures Distinct(key) && i < j && PieceAgrees(key, i, j) ==> i % 4 == 0
  {
    if i < j && PieceAgrees(key, i, j) {
      assert AgreesAt(key, i, 0);
    }
  }
}
