/** Any way of cutting a byte stream into reads leads the HTTP parser to the same place. */
module HttpChunks {
  import opened Chunks
  import opened HttpMessage
  import opened HttpParser

  /** What the calls of `DoParse` after each read arrive at, by the contract of `DoParse`. */
  function AfterReads(kind: Kind, chunks: seq<string>): State {
    if chunks == [] then Initial(kind)
    else
      var s := AfterReads(kind, chunks[..|chunks| - 1]);
      if Stopped(s.position) then s else Parsed(kind, Flat(chunks))
  }

  /** The receive loop: each read is appended and parsed. */
  method ReceiveAll(p: Parser, chunks: seq<string>)
    requires p.Valid() && p.buffer == [] && p.View() == Initial(p.kind)
    modifies p
    ensures p.View() == AfterReads(p.kind, chunks) && p.buffer == Flat(chunks)
  {
    hide Parsed;
    var i := 0;
    while i < |chunks|
      invariant 0 <= i <= |chunks| && p.Valid()
      invariant p.buffer == Flat(chunks[..i])
      invariant p.View() == AfterReads(p.kind, chunks[..i])
    {
      assert chunks[..i + 1][..i] == chunks[..i];
      p.Receive(chunks[i]);
      var ret := p.DoParse();
      i := i + 1;
    }
    assert chunks[..|chunks|] == chunks;
  }

  /** The state of a single read of the first i chunks. */
  function Upto(kind: Kind, chunks: seq<string>, i: nat): State
    requires i <= |chunks|
  {
    Parsed(kind, Flat(chunks[..i]))
  }

  ghost predicate NeverStopsEarly(kind: Kind, chunks: seq<string>) {
    forall i :: 0 <= i < |chunks| ==> !Stopped(Upto(kind, chunks, i).position)
  }

  ghost predicate EndsEarly(kind: Kind, chunks: seq<string>) {
    exists i :: 0 <= i < |chunks| && Upto(kind, chunks, i).position == AtEnd
  }

  /** Reads that do not stop the parser before the last one arrive at the state of a single read. */
  lemma {:induction false} ChunkIndependence(kind: Kind, chunks: seq<string>)
    requires NeverStopsEarly(kind, chunks)
    ensures AfterReads(kind, chunks) == Parsed(kind, Flat(chunks))
  {
    hide Parsed;
    if chunks == [] {
      NothingParsed(kind);
    } else {
      var init := chunks[..|chunks| - 1];
      forall i | 0 <= i < |init|
        ensures !Stopped(Upto(kind, init, i).position)
      {
        assert init[..i] == chunks[..i];
        assert Upto(kind, init, i) == Upto(kind, chunks, i);
      }
      ChunkIndependence(kind, init);
      assert !Stopped(Upto(kind, chunks, |init|).position);
    }
  }

  lemma NothingParsed(kind: Kind)
    ensures Parsed(kind, []) == Initial(kind)
  {
  }

  lemma EndsEarlySnoc(kind: Kind, chunks: seq<string>)
    requires chunks != []
    ensures var init := chunks[..|chunks| - 1];
            EndsEarly(kind, chunks) == (EndsEarly(kind, init) || Parsed(kind, Flat(init)).position == AtEnd)
  {
    hide Parsed;
    var init := chunks[..|chunks| - 1];
    assert forall i :: 0 <= i < |init| ==> Upto(kind, init, i) == Upto(kind, chunks, i) by {
      forall i | 0 <= i < |init|
        ensures Upto(kind, init, i) == Upto(kind, chunks, i)
      {
        assert init[..i] == chunks[..i];
      }
    }
    assert Upto(kind, chunks, |init|) == Parsed(kind, Flat(init));
    if EndsEarly(kind, init) {
      var i :| 0 <= i < |init| && Upto(kind, init, i).position == AtEnd;
      assert Upto(kind, chunks, i).position == AtEnd;
    }
    if EndsEarly(kind, chunks) {
      var i :| 0 <= i < |chunks| && Upto(kind, chunks, i).position == AtEnd;
      assert i == |init| || Upto(kind, init, i).position == AtEnd;
    }
  }

  /** The reads arrive at the state of a single read of some of them: of all, or of those that stopped the parser. */
  lemma {:induction false} StateOfPrefix(kind: Kind, chunks: seq<string>) returns (i: nat)
    ensures i <= |chunks| && AfterReads(kind, chunks) == Upto(kind, chunks, i)
    ensures i == |chunks| || Stopped(AfterReads(kind, chunks).position)
  {
    hide Parsed;
    if chunks == [] {
      NothingParsed(kind);
      i := 0;
    } else {
      var init := chunks[..|chunks| - 1];
      var j := StateOfPrefix(kind, init);
      assert init[..j] == chunks[..j];
      assert chunks[..|chunks|] == chunks;
      i := if Stopped(AfterReads(kind, init).position) then j else |chunks|;
    }
  }

  /**
   The verdict of any sequence of reads is that of a single read exactly when no read but the
   last ends on the end of a complete message: trailing bytes are then ignored, not an error.
   */
  lemma {:induction false} VerdictOfReads(kind: Kind, chunks: seq<string>)
    requires NonEmptyReads(chunks)
    ensures AfterReads(kind, chunks).position == Parsed(kind, Flat(chunks)).position <==> !EndsEarly(kind, chunks)
    ensures !Stopped(AfterReads(kind, chunks).position) ==> AfterReads(kind, chunks) == Parsed(kind, Flat(chunks))
    ensures AfterReads(kind, chunks).position in {AtError, Aborted} ==>
              Parsed(kind, Flat(chunks)).position == AfterReads(kind, chunks).position
    ensures AfterReads(kind, chunks).position == AtEnd ==> Parsed(kind, Flat(chunks)).position in {AtEnd, AtError}
  {
    hide Parsed;
    if chunks == [] {
      NothingParsed(kind);
    } else {
      var init, c := chunks[..|chunks| - 1], chunks[|chunks| - 1];
      VerdictOfReads(kind, init);
      EndsEarlySnoc(kind, chunks);
      var b := Flat(init);
      if Parsed(kind, b).position == AtEnd {
        EndIsExact(kind, b, c);
      } else if Parsed(kind, b).position in {AtError, Aborted} {
        ErrorIsFinal(kind, b, c);
      }
    }
  }

  /** A byte string that a single read finds complete is found complete, with all its fields, under every chunking. */
  lemma CompleteUnderAnyChunking(kind: Kind, b: string, chunks: seq<string>)
    requires Flat(chunks) == b && NonEmptyReads(chunks)
    requires Parsed(kind, b).position == AtEnd
    ensures AfterReads(kind, chunks) == Parsed(kind, b)
  {
    hide Parsed;
    forall i | 0 <= i < |chunks|
      ensures !Stopped(Upto(kind, chunks, i).position)
    {
      var rest := FlatRest(chunks, i);
      if Upto(kind, chunks, i).position == AtEnd {
        EndIsExact(kind, Flat(chunks[..i]), rest);
        assert false;
      } else if Stopped(Upto(kind, chunks, i).position) {
        ErrorIsFinal(kind, Flat(chunks[..i]), rest);
        assert false;
      }
    }
    ChunkIndependence(kind, chunks);
  }
}
