/**
 `utils/coroutine/coroutine.cc` and the copy loops of `utils/coroutine/coroutine_util.S`: coroutines
 that share one stack and keep their frames in a buffer of their own while they do not run.
 Addresses are counted in eight-byte words, to which the stack pointer is always aligned; lengths
 and capacities stay in bytes.
 */
module Coroutine {
  import opened Arithmetic

  type Word = int

  const UNIT: nat := 1024
  const LIMIT: nat := 102400

  // -- Frames and buffers --

  /** How many words the copy loops move for a length in bytes: at least one. */
  function WordsOf(len: nat): (n: nat)
    ensures n >= 1 && 8 * n >= len && (len > 0 ==> 8 * n < len + 8)
  {
    if len == 0 then 1 else (len + 7) / 8
  }

  /** n words of the stack from `start` downwards. */
  function Saved(stack: seq<Word>, start: nat, n: nat): (r: seq<Word>)
    requires n <= start + 1 <= |stack|
    ensures |r| == n && forall k :: 0 <= k < n ==> r[k] == stack[start - k]
  {
    seq(n, k requires 0 <= k < n => stack[start - k])
  }

  /** The stack after the first n words of a buffer are written from `start` downwards. */
  function Restored(stack: seq<Word>, buf: seq<Word>, start: nat, n: nat): (r: seq<Word>)
    requires n <= start + 1 <= |stack| && n <= |buf|
    ensures |r| == |stack|
    ensures forall i :: 0 <= i < |stack| ==> r[i] == if start - n < i <= start then buf[start - i] else stack[i]
  {
    seq(|stack|, i requires 0 <= i < |stack| => if start - n < i <= start then buf[start - i] else stack[i])
  }

  /** `CheckStackFramesBufCapacity`: the capacity for frames of this length. */
  function Capacity(capacity: nat, len: nat): nat {
    if len <= capacity then capacity
    else if len % UNIT == 0 then len
    else (len / UNIT + 1) * UNIT
  }

  lemma RoundedUp(len: nat)
    requires len % UNIT != 0
    ensures var c := (len / UNIT + 1) * UNIT; c % UNIT == 0 && len < c < len + UNIT
  {
  }

  /** A grown buffer holds every word of the save, stays in whole units and under the limit. */
  lemma SaveFits(capacity: nat, len: nat)
    requires capacity % UNIT == 0 && UNIT <= capacity <= LIMIT && (len > capacity ==> len < LIMIT)
    ensures var c := Capacity(capacity, len);
            && c % 1024 == 0 && capacity <= c <= 102400 && len <= c && (c == capacity || c < len + 1024)
            && WordsOf(len) <= c / 8
  {
    var c := Capacity(capacity, len);
    if len > capacity && len % UNIT != 0 {
      RoundedUp(len);
    }
    WholeWords(c, len);
  }

  lemma WholeWords(c: nat, len: nat)
    requires c % UNIT == 0 && len <= c && c >= 8
    ensures WordsOf(len) <= c / 8
  {
    assert c == 8 * (c / 8);
  }

  // -- The machine: one stack, any number of coroutines --

  /** `entry` is where the coroutine starts. */
  datatype Context = Context(started: bool, start: nat, len: nat, capacity: nat, buf: seq<Word>, entry: Word)

  datatype Machine = Machine(stack: seq<Word>, cos: seq<Context>, running: nat)

  /** The running coroutine leaves the stack in any state, adds a coroutine, or yields with its pointer at `rsp`. */
  datatype Event = Work(stack: seq<Word>) | Add(entry: Word) | Yield(to: nat, rsp: nat, back: Word)

  /** The buffer holds what its capacity says, and any frames in it. */
  predicate Sound(c: Context) {
    && c.capacity % UNIT == 0 && UNIT <= c.capacity <= LIMIT
    && |c.buf| == c.capacity / 8
    && WordsOf(c.len) <= |c.buf|
  }

  function FrameLen(c: Context, rsp: nat): nat
    requires rsp <= c.start
  {
    8 * (c.start - rsp) + 8
  }

  /** The assertions of `CoYieldTo` on the one that yields. */
  predicate CanSave(c: Context, size: nat, rsp: nat) {
    c.started ==> rsp <= c.start < size && (FrameLen(c, rsp) > c.capacity ==> FrameLen(c, rsp) < LIMIT)
  }

  /** The yielding coroutine's context once its frames are saved. */
  function AfterSave(c: Context, stack: seq<Word>, rsp: nat): (r: Context)
    requires Sound(c) && CanSave(c, |stack|, rsp)
    ensures Sound(r) && r.started == c.started && r.start == c.start
  {
    if !c.started then c
    else
      var len := FrameLen(c, rsp);
      SaveFits(c.capacity, len);
      var n, capacity := WordsOf(len), Capacity(c.capacity, len);
      assert n == c.start - rsp + 1;
      var grown := c.buf + Zeros(capacity / 8 - |c.buf|);
      c.(len := len, capacity := capacity, buf := Saved(stack, c.start, n) + grown[n..])
  }

  /** The save of a coroutine that has started, field by field. */
  lemma SaveByFields(c: Context, stack: seq<Word>, rsp: nat)
    requires Sound(c) && CanSave(c, |stack|, rsp) && c.started
    ensures var len := 8 * (c.start - rsp) + 8;
            var n, words := WordsOf(len), Capacity(c.capacity, len) / 8;
            && n <= c.start + 1 <= |stack| && n <= words && |c.buf| <= words
            && c.capacity % UNIT == 0 && UNIT <= c.capacity <= LIMIT && |c.buf| == c.capacity / 8
            && (len > c.capacity ==> len < LIMIT)
            && AfterSave(c, stack, rsp)
            == c.(len := len, capacity := Capacity(c.capacity, len),
                  buf := Saved(stack, c.start, n) + (c.buf + Zeros(words - |c.buf|))[n..])
  {
    hide Saved, Zeros, Capacity, WordsOf;
    SaveFits(c.capacity, FrameLen(c, rsp));
    FrameWords(c.start - rsp);
  }

  lemma FrameWords(n: nat)
    ensures WordsOf(8 * n + 8) == n + 1
  {
  }

  /** The context and the stack of the coroutine that takes over. */
  predicate CanResume(c: Context, size: nat, rsp: nat) {
    if c.started then WordsOf(c.len) <= c.start + 1 <= size else 2 <= rsp <= size
  }

  function ResumedStack(c: Context, stack: seq<Word>, rsp: nat, back: Word): (r: seq<Word>)
    requires Sound(c) && CanResume(c, |stack|, rsp)
    ensures |r| == |stack|
  {
    if c.started then Restored(stack, c.buf, c.start, WordsOf(c.len))
    else stack[rsp - 1 := back][rsp - 2 := c.entry]
  }

  /** A coroutine that has not run starts on the word below the return address. */
  function Begun(c: Context, rsp: nat): (r: Context)
    requires !c.started ==> rsp >= 2
    ensures Sound(c) ==> Sound(r)
  {
    if c.started then c else c.(started := true, start := rsp - 2)
  }

  predicate Legal(m: Machine, e: Event) {
    match e
    case Work(stack) => |stack| == |m.stack|
    case Add(_) => true
    case Yield(to, rsp, _) =>
      && m.running < |m.cos| && to < |m.cos| && to != m.running
      && (forall i :: 0 <= i < |m.cos| ==> Sound(m.cos[i]))
      && CanSave(m.cos[m.running], |m.stack|, rsp)
      && (m.cos[to].started ==> AfterSave(m.cos[m.running], m.stack, rsp).len < LIMIT)
      && CanResume(m.cos[to], |m.stack|, rsp)
  }

  function Next(m: Machine, e: Event): (r: Machine)
    requires Legal(m, e)
    ensures |r.stack| == |m.stack| && |r.cos| >= |m.cos|
  {
    match e
    case Work(stack) => m.(stack := stack)
    case Add(entry) => m.(cos := m.cos + [Empty(entry)])
    case Yield(to, rsp, back) =>
      Machine(
        ResumedStack(m.cos[to], m.stack, rsp, back),
        m.cos[m.running := AfterSave(m.cos[m.running], m.stack, rsp)][to := Begun(m.cos[to], rsp)],
        to)
  }

  // -- Runs --

  function Zeros(n: nat): (r: seq<Word>)
    ensures |r| == n && forall i :: 0 <= i < n ==> r[i] == 0
  {
    seq(n, i => 0)
  }

  /** `InitialCoContext`. */
  function Empty(entry: Word): Context { Context(false, 0, 0, UNIT, Zeros(UNIT / 8), entry) }

  predicate Initial(m: Machine) {
    && |m.cos| >= 1 && m.running == 0
    && forall i :: 0 <= i < |m.cos| ==> m.cos[i] == Empty(m.cos[i].entry)
  }

  predicate LegalRun(m: Machine, run: seq<Event>)
    decreases |run|, 0
  {
    run == [] || (LegalRun(m, run[..|run| - 1]) && Legal(After(m, run[..|run| - 1]), run[|run| - 1]))
  }

  function After(m: Machine, run: seq<Event>): (r: Machine)
    requires LegalRun(m, run)
    ensures |r.stack| == |m.stack| && |r.cos| >= |m.cos|
    decreases |run|, 1
  {
    if run == [] then m else Next(After(m, run[..|run| - 1]), run[|run| - 1])
  }

  /** The words from the stack pointer to the frame start, when coroutine c last yielded. */
  function LastFrames(m: Machine, run: seq<Event>, c: nat): seq<Word>
    requires LegalRun(m, run)
  {
    if run == [] then []
    else
      var init, e := run[..|run| - 1], run[|run| - 1];
      var now := After(m, init);
      var co := now.running;
      if e.Yield? && co == c && now.cos[co].started then now.stack[e.rsp..now.cos[co].start + 1]
      else LastFrames(m, init, c)
  }

  /** A coroutine off the stack has its frames in its buffer, topmost word first. */
  predicate Keeps(c: Context, size: nat, frames: seq<Word>) {
    && Sound(c)
    && |frames| == WordsOf(c.len) <= c.start + 1 <= size
    && forall k :: 0 <= k < |frames| ==> c.buf[k] == frames[|frames| - 1 - k]
  }

  ghost predicate Invariant(m: Machine, run: seq<Event>)
    requires LegalRun(m, run)
  {
    var now := After(m, run);
    && now.running < |now.cos|
    && (forall c :: 0 <= c < |now.cos| ==> Sound(now.cos[c]))
    && (forall c :: 0 <= c < |now.cos| && now.cos[c].started ==>
      now.cos[c].start < |now.stack| && (c != now.running ==> Keeps(now.cos[c], |now.stack|, LastFrames(m, run, c))))
  }

  lemma SaveKeeps(c: Context, stack: seq<Word>, rsp: nat)
    requires Sound(c) && c.started && CanSave(c, |stack|, rsp)
    ensures Keeps(AfterSave(c, stack, rsp), |stack|, stack[rsp..c.start + 1])
  {
    hide Saved, Capacity;
    var len := FrameLen(c, rsp);
    var n, r, frames := WordsOf(len), AfterSave(c, stack, rsp), stack[rsp..c.start + 1];
    assert n == c.start - rsp + 1 == |frames|;
    forall k | 0 <= k < n
      ensures r.buf[k] == frames[n - 1 - k]
    {
      assert r.buf[k] == Saved(stack, c.start, n)[k] == stack[c.start - k];
    }
  }

  lemma EmptySound()
    ensures forall entry :: Sound(Empty(entry))
  {
  }

  /** Over any run, every buffer is sound and every coroutine off the stack has its last frames in it. */
  lemma {:induction false} InvariantOverRuns(m: Machine, run: seq<Event>)
    requires Initial(m) && LegalRun(m, run)
    ensures Invariant(m, run)
  {
    hide Sound, Keeps, AfterSave, ResumedStack, CanSave, CanResume;
    if run == [] {
      EmptySound();
    } else {
      var init, e := run[..|run| - 1], run[|run| - 1];
      InvariantOverRuns(m, init);
      var was, now := After(m, init), After(m, run);
      if e.Add? {
        EmptySound();
      } else if e.Yield? {
        var from := was.cos[was.running];
        forall c | 0 <= c < |now.cos| && now.cos[c].started
          ensures now.cos[c].start < |now.stack|
          ensures c != now.running ==> Keeps(now.cos[c], |now.stack|, LastFrames(m, run, c))
        {
          if c == was.running {
            SaveKeeps(from, was.stack, e.rsp);
          } else if c == e.to && !was.cos[c].started {
            StartInside(was.cos[c], |was.stack|, e.rsp);
          }
        }
      }
    }
  }

  lemma StartInside(c: Context, size: nat, rsp: nat)
    requires CanResume(c, size, rsp) && !c.started
    ensures 2 <= rsp <= size
  {
  }

  /**
   The shared stack looks private: when a coroutine takes over again, the words from its saved stack
   pointer to its frame start are those of its last yield, and no other word of the stack has moved.
   */
  lemma PrivateStack(m: Machine, run: seq<Event>, e: Event)
    requires Initial(m) && LegalRun(m, run) && Legal(After(m, run), e)
    requires e.Yield? && After(m, run).cos[e.to].started
    ensures var was, now, frames := After(m, run), Next(After(m, run), e), LastFrames(m, run, e.to);
            var top := was.cos[e.to].start + 1;
            && now.running == e.to && now.cos[e.to] == was.cos[e.to]
            && |frames| == WordsOf(was.cos[e.to].len) <= top <= |now.stack|
            && now.stack[top - |frames|..top] == frames
            && now.stack[..top - |frames|] == was.stack[..top - |frames|] && now.stack[top..] == was.stack[top..]
  {
    hide Restored, AfterSave, LegalRun, After, LastFrames, Legal, Next, Keeps, Invariant;
    InvariantOverRuns(m, run);
    TakesOver(After(m, run), e);
    FramesKept(m, run, e.to);
    RestoredFrames(After(m, run).stack, After(m, run).cos[e.to], LastFrames(m, run, e.to));
  }

  /**
   A first start: over every run, when a coroutine runs for the first time the word at its frame start is its
   entry, which the return of `StartCoroutine` goes to, the word above it is the return address of the call
   made by the one that yields, and every other word of the stack is as it was.
   */
  lemma FirstStart(m: Machine, run: seq<Event>, e: Event)
    requires Initial(m) && LegalRun(m, run) && Legal(After(m, run), e)
    requires e.Yield? && !After(m, run).cos[e.to].started
    ensures var was, now := After(m, run), Next(After(m, run), e);
            var c := now.cos[e.to];
            && now.running == e.to && c.started && c.entry == was.cos[e.to].entry
            && c.start + 2 == e.rsp <= |now.stack| == |was.stack|
            && now.stack[c.start] == was.cos[e.to].entry && now.stack[c.start + 1] == e.back
            && forall i :: 0 <= i < |was.stack| && i != c.start && i != c.start + 1 ==> now.stack[i] == was.stack[i]
  {
    hide LegalRun, After, Initial, AfterSave, Sound;
  }

  /** A coroutine keeps the entry it was added with. */
  lemma {:induction false} EntryKept(m: Machine, run: seq<Event>, c: nat)
    requires LegalRun(m, run) && c < |m.cos|
    ensures After(m, run).cos[c].entry == m.cos[c].entry
  {
    if run != [] {
      EntryKept(m, run[..|run| - 1], c);
    }
  }

  lemma TakesOver(m: Machine, e: Event)
    requires Legal(m, e) && e.Yield? && m.cos[e.to].started
    ensures m.running != e.to < |m.cos| && Next(m, e).running == e.to && Next(m, e).cos[e.to] == m.cos[e.to]
    ensures var c := m.cos[e.to];
            && WordsOf(c.len) <= c.start + 1 <= |m.stack| && WordsOf(c.len) <= |c.buf|
            && Next(m, e).stack == Restored(m.stack, c.buf, c.start, WordsOf(c.len))
  {
    hide AfterSave, CanSave;
  }

  lemma FramesKept(m: Machine, run: seq<Event>, c: nat)
    requires LegalRun(m, run) && Invariant(m, run) && c < |After(m, run).cos| && c != After(m, run).running
    requires After(m, run).cos[c].started
    ensures Keeps(After(m, run).cos[c], |After(m, run).stack|, LastFrames(m, run, c))
  {
    hide LegalRun, LastFrames, Keeps, Sound;
  }

  lemma RestoredFrames(stack: seq<Word>, c: Context, frames: seq<Word>)
    requires Keeps(c, |stack|, frames)
    ensures var r, top := Restored(stack, c.buf, c.start, WordsOf(c.len)), c.start + 1;
            && |frames| == WordsOf(c.len) && r[top - |frames|..top] == frames
            && r[..top - |frames|] == stack[..top - |frames|] && r[top..] == stack[top..]
  {
    hide Restored;
    var n, top := |frames|, c.start + 1;
    assert n <= |c.buf|;
    var r := Restored(stack, c.buf, c.start, n);
    forall i | 0 <= i < n
      ensures r[top - n + i] == frames[i]
    {
      assert r[top - n + i] == c.buf[n - 1 - i] == frames[n - 1 - (n - 1 - i)];
    }
  }

  // -- Round robin --

  /** Where `CoStart` and `CoYieldCurr` go from a machine: from the main coroutine to the first, else to the next. */
  function Target(m: Machine): nat { if m.running == 0 then 1 else Following(m.running, |m.cos|) }

  /** Every yield of the run is one of the dispatcher's. */
  ghost predicate Dispatched(m: Machine, run: seq<Event>)
    requires LegalRun(m, run)
  {
    run == [] ||
    var init, e := run[..|run| - 1], run[|run| - 1];
    Dispatched(m, init) && (e.Yield? ==> e.to == Target(After(m, init)))
  }

  function Yields(run: seq<Event>): nat {
    if run == [] then 0 else Yields(run[..|run| - 1]) + if run[|run| - 1].Yield? then 1 else 0
  }

  /** In a dispatched run without additions the start and k yields bring coroutine 1 + (k mod m) of the m to run. */
  lemma {:induction false} RoundRobinRun(m: Machine, run: seq<Event>)
    requires Initial(m) && |m.cos| >= 2 && LegalRun(m, run) && Dispatched(m, run)
    requires forall i :: 0 <= i < |run| ==> !run[i].Add?
    ensures |After(m, run).cos| == |m.cos|
    ensures After(m, run).running == if Yields(run) == 0 then 0 else AfterYields(|m.cos|, Yields(run) - 1)
    ensures Yields(run) > 0 ==> After(m, run).running == 1 + (Yields(run) - 1) % (|m.cos| - 1)
  {
    hide Legal, Initial, Next;
    if run == [] {
      Starts(m);
    } else {
      var init, e := run[..|run| - 1], run[|run| - 1];
      RoundRobinRun(m, init);
      StepShape(After(m, init), e);
    }
    if Yields(run) > 0 {
      RoundRobin(|m.cos| - 1, Yields(run) - 1);
    }
  }

  lemma Starts(m: Machine)
    requires Initial(m)
    ensures m.running == 0 < |m.cos|
  {
  }

  lemma StepShape(m: Machine, e: Event)
    requires Legal(m, e)
    ensures |Next(m, e).cos| == |m.cos| + if e.Add? then 1 else 0
    ensures Next(m, e).running == if e.Yield? then e.to else m.running
    ensures e.Yield? ==> e.to < |m.cos| && e.to != m.running
  {
  }

  /**
   With additions at any time: once started the main coroutine is never back, and the next yield is no
   self-yield exactly when there are two.
   */
  lemma {:induction false} DispatchedSafely(m: Machine, run: seq<Event>)
    requires Initial(m) && LegalRun(m, run) && Dispatched(m, run)
    ensures var now := After(m, run);
            && now.running < |now.cos| && (now.running == 0 <==> Yields(run) == 0)
            && (Yields(run) > 0 ==> (Target(now) != now.running <==> |now.cos| >= 3))
  {
    hide Legal, Initial, Next;
    if run == [] {
      Starts(m);
    } else {
      DispatchedSafely(m, run[..|run| - 1]);
      StepShape(After(m, run[..|run| - 1]), run[|run| - 1]);
    }
  }

  /** Prefixes of such runs are such runs. */
  lemma {:induction false} RunPrefix(m: Machine, run: seq<Event>, i: nat)
    requires LegalRun(m, run) && Dispatched(m, run) && i <= |run|
    ensures LegalRun(m, run[..i]) && Dispatched(m, run[..i])
  {
    if i == |run| {
      assert run[..i] == run;
    } else {
      RunPrefix(m, run[..|run| - 1], i);
      assert run[..|run| - 1][..i] == run[..i];
    }
  }

  /** `CoYieldCurr`: the place after this one, past the end the place after the main coroutine. */
  function Following(curr: nat, size: nat): nat { if curr + 1 == size then 1 else curr + 1 }

  function AfterYields(size: nat, k: nat): nat { if k == 0 then 1 else Following(AfterYields(size, k - 1), size) }

  /** After `CoStart` and k yields coroutine 1 + k mod m runs, of the m that were added. */
  lemma {:induction false} RoundRobin(m: nat, k: nat)
    requires m >= 1
    ensures AfterYields(m + 1, k) == 1 + k % m
  {
    if k > 0 {
      RoundRobin(m, k - 1);
      WrapNext(k - 1, m);
    }
  }

  /** The main coroutine is never chosen; the assertion against yielding to oneself holds from two coroutines on. */
  lemma NeverMainNorSelf(m: nat, k: nat)
    requires m >= 1
    ensures 1 <= AfterYields(m + 1, k) <= m
    ensures AfterYields(m + 1, k + 1) != AfterYields(m + 1, k) <==> m >= 2
  {
    RoundRobin(m, k);
    RoundRobin(m, k + 1);
    WrapNext(k, m);
  }
}
