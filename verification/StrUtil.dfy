/** `utils/strutil.cc`: searching, splitting and trimming. A byte is modelled as a char. */
module StrUtil {
  import opened Wrappers

  const NUL := '\0'

  predicate MatchAt(s: string, needle: string, p: nat) {
    p + |needle| <= |s| && s[p..p + |needle|] == needle
  }

  /** p is where needle occurs first. */
  ghost predicate FirstMatch(s: string, needle: string, p: nat) {
    MatchAt(s, needle, p) && forall q :: 0 <= q < p ==> !MatchAt(s, needle, q)
  }

  ghost predicate Absent(s: string, needle: string) {
    forall q: nat :: q <= |s| ==> !MatchAt(s, needle, q)
  }

  /** `std::string::find`. */
  function Find(s: string, needle: string): (r: Option<nat>)
    ensures r.Some? ==> r.value + |needle| <= |s|
  {
    if MatchAt(s, needle, 0) then Some(0)
    else if s == [] then None
    else
      match Find(s[1..], needle)
      case Some(p) => Some(p + 1)
      case None => None
  }

  lemma MatchInTail(s: string, needle: string, q: nat)
    requires 0 < q <= |s|
    ensures MatchAt(s, needle, q) == MatchAt(s[1..], needle, q - 1)
  {
    if q + |needle| <= |s| {
      assert s[1..][q - 1..q - 1 + |needle|] == s[q..q + |needle|];
    }
  }

  /** `Find` is the first occurrence, and there is none when it finds none. */
  lemma {:induction false} FindIsFirst(s: string, needle: string)
    ensures Find(s, needle).Some? ==> FirstMatch(s, needle, Find(s, needle).value)
    ensures Find(s, needle).None? ==> Absent(s, needle)
  {
    if !MatchAt(s, needle, 0) && s != [] {
      FindIsFirst(s[1..], needle);
      forall q: nat | 0 < q <= |s|
        ensures MatchAt(s, needle, q) == MatchAt(s[1..], needle, q - 1)
      {
        MatchInTail(s, needle, q);
      }
    }
  }

  lemma FindFirst(s: string, needle: string, p: nat)
    requires FirstMatch(s, needle, p)
    ensures Find(s, needle) == Some(p)
  {
    FindIsFirst(s, needle);
    assert MatchAt(s, needle, p);
  }

  lemma FindAbsent(s: string, needle: string)
    requires Absent(s, needle)
    ensures Find(s, needle) == None
  {
    FindIsFirst(s, needle);
  }

  /** `strnlen`: the length up to the first NUL. */
  function CLength(s: string): (n: nat)
    ensures n <= |s| && NUL !in s[..n]
    ensures n < |s| ==> s[n] == NUL
  {
    if s == [] || s[0] == NUL then 0 else 1 + CLength(s[1..])
  }

  /** What `strnstr` finds: a match that lies wholly before the first NUL. */
  function SearchC(s: string, needle: string): Option<nat> {
    Find(s[..CLength(s)], needle)
  }

  /** `strnstr` over the first |s| bytes at `s`. */
  method StrNStr(s: string, needle: string) returns (r: Option<nat>)
    requires NUL !in needle
    ensures r == SearchC(s, needle)
  {
    if |needle| == 0 {
      FindFirst(s[..CLength(s)], needle, 0);
      return Some(0);
    }
    var t := s[..CLength(s)];
    var len, hay := |t|, 0;
    while len >= |needle|
      invariant 0 <= hay && len + hay == |t|
      invariant forall q :: 0 <= q < hay ==> !MatchAt(t, needle, q)
    {
      len := len - 1;
      if t[hay..hay + |needle|] == needle {
        FindFirst(t, needle, hay);
        return Some(hay);
      }
      hay := hay + 1;
    }
    FindAbsent(t, needle);
    return None;
  }

  // -- split --

  /** The pieces between separators, empty ones included. */
  function Pieces(s: string, sep: string): (ps: seq<string>)
    requires |sep| > 0
    ensures |ps| > 0
    decreases |s|
  {
    match Find(s, sep)
    case None => [s]
    case Some(p) => [s[..p]] + Pieces(s[p + |sep|..], sep)
  }

  function NonEmpty(ps: seq<string>): seq<string> {
    if ps == [] then [] else (if ps[0] == [] then [] else [ps[0]]) + NonEmpty(ps[1..])
  }

  predicate SomeNonEmpty(ps: seq<string>) {
    exists i :: 0 <= i < |ps| && ps[i] != []
  }

  /**
   What `split` returns: the non-empty pieces, but nothing at all when no non-empty piece
   is followed by a separator.
   */
  function Split(s: string, sep: string): seq<string>
    requires |sep| > 0
  {
    var ps := Pieces(s, sep);
    if SomeNonEmpty(ps[..|ps| - 1]) then NonEmpty(ps) else []
  }

  /** The split loop between iterations: `done` pieces read, `rest` still to read. */
  ghost predicate SplitInvariant(src: string, sep: string, rest: string, done: seq<string>, res: seq<string>, has: bool)
    requires |sep| > 0
  {
    && Pieces(src, sep) == done + Pieces(rest, sep)
    && res == NonEmpty(done) && has == SomeNonEmpty(done)
  }

  lemma PiecesAt(s: string, sep: string, p: nat)
    requires |sep| > 0 && Find(s, sep) == Some(p)
    ensures p + |sep| <= |s| && Pieces(s, sep) == [s[..p]] + Pieces(s[p + |sep|..], sep)
  {
    hide Find;
  }

  lemma SplitStep(src: string, sep: string, rest: string, p: nat, done: seq<string>, res: seq<string>, has: bool)
    requires |sep| > 0 && SplitInvariant(src, sep, rest, done, res, has)
    requires Find(rest, sep) == Some(p)
    ensures p + |sep| <= |rest|
    ensures p == 0 ==> SplitInvariant(src, sep, rest[|sep|..], done + [[]], res, has)
    ensures p > 0 ==> SplitInvariant(src, sep, rest[p + |sep|..], done + [rest[..p]], res + [rest[..p]], true)
  {
    hide NonEmpty, SomeNonEmpty, Pieces, Find;
    PiecesAt(rest, sep, p);
    NonEmptySnoc(done, rest[..p]);
  }

  lemma SplitEnd(src: string, sep: string, rest: string, done: seq<string>, res: seq<string>, has: bool)
    requires |sep| > 0 && SplitInvariant(src, sep, rest, done, res, has)
    requires Find(rest, sep).None?
    ensures Split(src, sep) == if has && rest != [] then res + [rest] else res
  {
    hide NonEmpty, SomeNonEmpty, Find;
    assert Pieces(src, sep) == done + [rest];
    assert Pieces(src, sep)[..|done|] == done;
    NonEmptySnoc(done, rest);
    NothingNonEmpty(done);
  }

  lemma SplitStart(src: string, sep: string)
    requires |sep| > 0
    ensures SplitInvariant(src, sep, src, [], [], false)
  {
  }

  /** `split`: an index loop that skips empty pieces and remembers whether it pushed one. */
  method SplitLoop(src: string, sep: string) returns (res: seq<string>)
    requires |sep| > 0
    ensures res == Split(src, sep)
  {
    hide SplitInvariant, Find, Pieces;
    res := [];
    var last := 0;
    var has := false;
    ghost var done: seq<string> := [];
    SplitStart(src, sep);
    if src == [] {
      SplitEmpty(sep);
      return;
    }
    assert src[0..] == src;
    while Find(src[last..], sep).Some?
      invariant 0 <= last <= |src|
      invariant SplitInvariant(src, sep, src[last..], done, res, has)
      decreases |src| - last
    {
      var curr := last + Find(src[last..], sep).value;
      SplitStep(src, sep, src[last..], curr - last, done, res, has);
      SliceOfSuffix(src, last, curr - last, curr - last + |sep|);
      done := done + [src[last..curr]];
      if curr == last {
        last := curr + |sep|;
        continue;
      }
      has := true;
      res := res + [src[last..curr]];
      last := curr + |sep|;
    }
    SplitEnd(src, sep, src[last..], done, res, has);
    if has && last < |src| {
      res := res + [src[last..]];
    }
  }

  lemma SliceOfSuffix(s: string, from: nat, p: nat, q: nat)
    requires p <= q && from + q <= |s|
    ensures s[from..][..p] == s[from..from + p] && s[from..][q..] == s[from + q..]
  {
  }

  lemma SplitEmpty(sep: string)
    requires |sep| > 0
    ensures Split([], sep) == []
  {
  }

  lemma {:induction false} NonEmptySnoc(ps: seq<string>, p: string)
    ensures NonEmpty(ps + [p]) == NonEmpty(ps) + (if p == [] then [] else [p])
    ensures SomeNonEmpty(ps + [p]) == (SomeNonEmpty(ps) || p != [])
  {
    if SomeNonEmpty(ps) {
      var i :| 0 <= i < |ps| && ps[i] != [];
      assert (ps + [p])[i] != [];
    }
    assert (ps + [p])[|ps|] == p;
    assert forall i :: 0 <= i < |ps| ==> (ps + [p])[i] == ps[i];
    if ps != [] {
      assert (ps + [p])[1..] == ps[1..] + [p];
      NonEmptySnoc(ps[1..], p);
    }
  }

  lemma {:induction false} NothingNonEmpty(ps: seq<string>)
    ensures !SomeNonEmpty(ps) ==> NonEmpty(ps) == []
  {
    if ps != [] && !SomeNonEmpty(ps) {
      assert forall i :: 0 <= i < |ps[1..]| ==> ps[1..][i] == ps[i + 1];
      NothingNonEmpty(ps[1..]);
    }
  }

  function Join(tokens: seq<string>, sep: string): string {
    if tokens == [] then []
    else if |tokens| == 1 then tokens[0]
    else tokens[0] + sep + Join(tokens[1..], sep)
  }

  /** The pieces always join back into the string. */
  lemma {:induction false} PiecesJoin(s: string, sep: string)
    requires |sep| > 0
    ensures Join(Pieces(s, sep), sep) == s
    decreases |s|
  {
    var r := Find(s, sep);
    hide Find;
    if r.Some? {
      assert s == s[..r.value] + sep + s[r.value + |sep|..] by { FindIsFirst(s, sep); }
      PiecesJoin(s[r.value + |sep|..], sep);
      assert Pieces(s, sep)[1..] == Pieces(s[r.value + |sep|..], sep);
    }
  }

  /** The separators in use: one character, or two different ones, so they never overlap themselves. */
  predicate Separator(sep: string) {
    |sep| == 1 || (|sep| == 2 && sep[0] != sep[1])
  }

  /** The first separator after a token free of it is the one that follows the token. */
  lemma SeparatorAfter(token: string, sep: string, rest: string)
    requires Separator(sep) && Absent(token, sep)
    ensures FirstMatch(token + sep + rest, sep, |token|)
  {
    var s := token + sep + rest;
    assert s[|token|..|token| + |sep|] == sep;
    forall q | 0 <= q < |token|
      ensures !MatchAt(s, sep, q)
    {
      if q + |sep| <= |token| {
        assert s[q..q + |sep|] == token[q..q + |sep|];
        assert !MatchAt(token, sep, q);
      } else {
        assert s[q..q + |sep|][1] == sep[0];
      }
    }
  }

  lemma {:induction false} NonEmptyAll(tokens: seq<string>)
    requires forall i :: 0 <= i < |tokens| ==> tokens[i] != []
    ensures NonEmpty(tokens) == tokens
  {
    if tokens != [] {
      NonEmptyAll(tokens[1..]);
    }
  }

  lemma {:induction false} PiecesOfJoin(tokens: seq<string>, sep: string)
    requires Separator(sep) && |tokens| > 0
    requires forall i :: 0 <= i < |tokens| ==> Absent(tokens[i], sep)
    ensures Pieces(Join(tokens, sep), sep) == tokens
  {
    hide FirstMatch, Absent;
    if |tokens| == 1 {
      FindAbsent(tokens[0], sep);
    } else {
      var rest := Join(tokens[1..], sep);
      var s := tokens[0] + sep + rest;
      SeparatorAfter(tokens[0], sep, rest);
      FindFirst(s, sep, |tokens[0]|);
      PiecesAt(s, sep, |tokens[0]|);
      assert s[..|tokens[0]|] == tokens[0] && s[|tokens[0]| + |sep|..] == rest;
      PiecesOfJoin(tokens[1..], sep);
    }
  }

  /** Two or more clean tokens survive `split`; a single one does not. */
  lemma SplitOfJoin(tokens: seq<string>, sep: string)
    requires Separator(sep) && |tokens| > 0
    requires forall i :: 0 <= i < |tokens| ==> Absent(tokens[i], sep) && tokens[i] != []
    ensures Split(Join(tokens, sep), sep) == if |tokens| == 1 then [] else tokens
  {
    hide Absent, Pieces, Join;
    PiecesOfJoin(tokens, sep);
    NonEmptyAll(tokens);
    if |tokens| > 1 {
      assert tokens[..|tokens| - 1][0] == tokens[0];
    }
  }

  /** Empty tokens are skipped, and without a non-empty one before the last nothing is left. */
  lemma SplitOfTokens(tokens: seq<string>, sep: string)
    requires Separator(sep) && |tokens| > 0
    requires forall i :: 0 <= i < |tokens| ==> Absent(tokens[i], sep)
    ensures Split(Join(tokens, sep), sep)
         == if exists i :: 0 <= i < |tokens| - 1 && tokens[i] != [] then NonEmpty(tokens) else []
  {
    hide Absent, Pieces, Join, NonEmpty;
    PiecesOfJoin(tokens, sep);
    var front := tokens[..|tokens| - 1];
    assert forall i :: 0 <= i < |front| ==> front[i] == tokens[i];
    if SomeNonEmpty(front) {
      var i :| 0 <= i < |front| && front[i] != [];
      assert tokens[i] != [];
    }
  }

  // -- Parts of a string --

  ghost predicate Part(x: string, s: string) {
    exists i: nat :: i <= |s| && MatchAt(s, x, i)
  }

  /** What a string is free of, its parts are free of. */
  lemma PartIsFree(x: string, s: string, needle: string)
    requires Part(x, s) && Absent(s, needle)
    ensures Absent(x, needle)
  {
    var i: nat :| i <= |s| && MatchAt(s, x, i);
    forall q: nat | q <= |x|
      ensures !MatchAt(x, needle, q)
    {
      if q + |needle| <= |x| {
        SliceOfSlice(s, i, |x|, q, |needle|);
        assert !MatchAt(s, needle, i + q);
      }
    }
  }

  lemma SliceOfSlice(s: string, i: nat, n: nat, q: nat, m: nat)
    requires i + n <= |s| && q + m <= n
    ensures s[i..i + n][q..q + m] == s[i + q..i + q + m]
  {
    var a, b := s[i..i + n][q..q + m], s[i + q..i + q + m];
    forall k | 0 <= k < m
      ensures a[k] == b[k]
    {
      assert a[k] == s[i..i + n][q + k];
    }
  }

  lemma PartHasNo(x: string, s: string, c: char)
    requires Part(x, s) && c !in s
    ensures c !in x
  {
    var i: nat :| i <= |s| && MatchAt(s, x, i);
    forall k | 0 <= k < |x|
      ensures x[k] != c
    {
      assert x[k] == s[i..i + |x|][k] == s[i + k];
    }
  }

  lemma PartOfTail(x: string, s: string, n: nat)
    requires n <= |s| && Part(x, s[n..])
    ensures Part(x, s)
  {
    var i: nat :| i <= |s[n..]| && MatchAt(s[n..], x, i);
    assert s[n..][i..i + |x|] == s[n + i..n + i + |x|];
    assert MatchAt(s, x, n + i);
  }

  lemma HeadIsFree(s: string, sep: string, p: nat)
    requires |sep| > 0 && FirstMatch(s, sep, p)
    ensures Absent(s[..p], sep) && Part(s[..p], s)
  {
    assert MatchAt(s, s[..p], 0);
    forall q: nat | q <= p
      ensures !MatchAt(s[..p], sep, q)
    {
      if q + |sep| <= p {
        assert s[..p][q..q + |sep|] == s[q..q + |sep|];
        assert !MatchAt(s, sep, q);
      }
    }
  }

  lemma {:induction false} PiecesAreParts(s: string, sep: string, k: nat)
    requires |sep| > 0 && k < |Pieces(s, sep)|
    ensures Absent(Pieces(s, sep)[k], sep) && Part(Pieces(s, sep)[k], s)
    decreases |s|
  {
    FindIsFirst(s, sep);
    var r := Find(s, sep);
    hide Find, Absent, Part, FirstMatch;
    if r.None? {
      Whole(s);
    } else if k == 0 {
      HeadIsFree(s, sep, r.value);
    } else {
      var n := r.value + |sep|;
      PiecesAreParts(s[n..], sep, k - 1);
      PartOfTail(Pieces(s[n..], sep)[k - 1], s, n);
    }
  }

  lemma Whole(s: string)
    ensures Part(s, s)
  {
    assert MatchAt(s, s, 0);
  }

  lemma {:induction false} NonEmptyMember(ps: seq<string>, k: nat)
    requires k < |NonEmpty(ps)|
    ensures NonEmpty(ps)[k] != [] && NonEmpty(ps)[k] in ps
  {
    if ps[0] == [] {
      NonEmptyMember(ps[1..], k);
    } else if k > 0 {
      NonEmptyMember(ps[1..], k - 1);
    }
  }

  /** Every token `split` returns is a non-empty part of the string, free of the separator. */
  lemma SplitParts(s: string, sep: string, k: nat)
    requires |sep| > 0 && k < |Split(s, sep)|
    ensures var x := Split(s, sep)[k]; x != [] && Absent(x, sep) && Part(x, s)
  {
    hide Pieces, Absent, Part;
    var ps := Pieces(s, sep);
    NonEmptyMember(ps, k);
    var i :| 0 <= i < |ps| && ps[i] == NonEmpty(ps)[k];
    PiecesAreParts(s, sep, i);
  }
}
