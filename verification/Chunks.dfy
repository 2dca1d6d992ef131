/** A byte stream cut into reads. */
module Chunks {

  function Flat<T>(chunks: seq<seq<T>>): seq<T> {
    if chunks == [] then [] else Flat(chunks[..|chunks| - 1]) + chunks[|chunks| - 1]
  }

  lemma {:induction false} FlatConcat<T>(a: seq<seq<T>>, b: seq<seq<T>>)
    ensures Flat(a + b) == Flat(a) + Flat(b)
  {
    if b == [] {
      assert a + b == a;
    } else {
      var init := b[..|b| - 1];
      FlatConcat(a, init);
      FlatSnoc(a + init, b[|b| - 1]);
      assert a + b == a + init + [b[|b| - 1]];
      assert Flat(a) + Flat(b) == Flat(a) + Flat(init) + b[|b| - 1];
    }
  }

  lemma FlatSnoc<T>(chunks: seq<seq<T>>, c: seq<T>)
    ensures Flat(chunks + [c]) == Flat(chunks) + c
  {
    assert (chunks + [c])[..|chunks|] == chunks;
  }

  /** The concatenation, taken apart at its front. */
  lemma FlatFront<T>(chunks: seq<seq<T>>)
    requires chunks != []
    ensures Flat(chunks) == chunks[0] + Flat(chunks[1..])
  {
    FlatConcat([chunks[0]], chunks[1..]);
    FlatOne(chunks[0]);
    assert chunks == [chunks[0]] + chunks[1..];
  }

  lemma FlatOne<T>(c: seq<T>)
    ensures Flat([c]) == c
  {
    assert [c][..0] == [];
    assert Flat([c][..0]) == [];
  }

  ghost predicate NonEmptyReads<T>(chunks: seq<seq<T>>) {
    forall i :: 0 <= i < |chunks| ==> chunks[i] != []
  }

  /** What is left to read after the first i reads, if any are left, is not empty. */
  lemma {:induction false} FlatRest<T>(chunks: seq<seq<T>>, i: nat) returns (rest: seq<T>)
    requires i < |chunks| && NonEmptyReads(chunks)
    ensures Flat(chunks) == Flat(chunks[..i]) + rest && rest != []
  {
    var init, c := chunks[..|chunks| - 1], chunks[|chunks| - 1];
    if i == |init| {
      rest := c;
    } else {
      var r := FlatRest(init, i);
      assert init[..i] == chunks[..i];
      rest := r + c;
    }
  }

  // -- Cuts: the places in the stream where a read ends --

  ghost predicate CutAt<T>(chunks: seq<seq<T>>, n: nat) {
    exists k :: 0 <= k <= |chunks| && |Flat(chunks[..k])| == n
  }

  /** How many reads come before a cut. */
  ghost function CutPlace<T>(chunks: seq<seq<T>>, n: nat): (k: nat)
    requires CutAt(chunks, n)
    ensures k <= |chunks| && |Flat(chunks[..k])| == n
  {
    var k :| 0 <= k <= |chunks| && |Flat(chunks[..k])| == n;
    k
  }

  lemma FlatSplit<T>(chunks: seq<seq<T>>, k: nat)
    requires k <= |chunks|
    ensures Flat(chunks) == Flat(chunks[..k]) + Flat(chunks[k..])
  {
    FlatConcat(chunks[..k], chunks[k..]);
    assert chunks == chunks[..k] + chunks[k..];
  }

  lemma SplitAgain<T>(chunks: seq<seq<T>>, k: nat, j: nat)
    requires k <= j <= |chunks|
    ensures Flat(chunks[..j]) == Flat(chunks[..k]) + Flat(chunks[k..][..j - k])
  {
    FlatSplit(chunks[..j], k);
    assert chunks[..j][..k] == chunks[..k];
    assert chunks[..j][k..] == chunks[k..][..j - k];
  }

  lemma NonEmptySlice<T>(chunks: seq<seq<T>>, k: nat)
    requires k <= |chunks| && NonEmptyReads(chunks)
    ensures NonEmptyReads(chunks[..k]) && NonEmptyReads(chunks[k..])
  {
  }

  lemma StrictlyLonger<T>(chunks: seq<seq<T>>, j: nat, k: nat)
    requires j < k <= |chunks| && NonEmptyReads(chunks)
    ensures |Flat(chunks[..j])| < |Flat(chunks[..k])|
  {
    NonEmptySlice(chunks, k);
    var rest := FlatRest(chunks[..k], j);
    assert chunks[..k][..j] == chunks[..j];
  }

  /** Cuts behind a cut are the cuts of the reads that are left. */
  lemma ShiftCut<T>(chunks: seq<seq<T>>, k: nat, m: nat)
    requires k <= |chunks| && NonEmptyReads(chunks)
    ensures CutAt(chunks, |Flat(chunks[..k])| + m) <==> CutAt(chunks[k..], m)
  {
    hide Flat;
    var n := |Flat(chunks[..k])|;
    if CutAt(chunks, n + m) {
      var j := CutPlace(chunks, n + m);
      if j < k {
        StrictlyLonger(chunks, j, k);
        assert false;
      }
      SplitAgain(chunks, k, j);
      assert |Flat(chunks[k..][..j - k])| == m;
    }
    if CutAt(chunks[k..], m) {
      var i := CutPlace(chunks[k..], m);
      SplitAgain(chunks, k, k + i);
      assert |Flat(chunks[..k + i])| == n + m;
    }
  }
}
