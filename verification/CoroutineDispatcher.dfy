/** The coroutine classes as the source runs them, on one shared stack. */
module CoroutineDispatcher {
  import opened Coroutine

  /** The copy loop from the stack into a buffer; the length is a byte count that may be any number. */
  method SaveStackFrames(buf: array<Word>, stack: array<Word>, start: nat, len: nat)
    requires buf != stack && WordsOf(len) <= buf.Length && WordsOf(len) <= start + 1 <= stack.Length
    modifies buf
    ensures buf[..] == Saved(stack[..], start, WordsOf(len)) + old(buf[..])[WordsOf(len)..]
  {
    hide Saved, WordsOf;
    ghost var n := WordsOf(len);
    WordsLeft(len, 0);
    var to, from, left, more := 0, start as int, len as int, true;
    while more
      invariant 0 <= to <= n && from == start - to && left == len - 8 * to
      invariant more <==> to < n
      invariant forall k :: 0 <= k < to ==> buf[k] == stack[start - k]
      invariant forall k :: to <= k < buf.Length ==> buf[k] == old(buf[k])
      decreases n - to
    {
      WordsLeft(len, to);
      buf[to] := stack[from];
      to := to + 1;
      from := from - 1;
      more := left > 8;
      left := left - 8;
    }
  }

  /** The copy loop back. */
  method RestoreStackFrames(buf: array<Word>, stack: array<Word>, start: nat, len: nat)
    requires buf != stack && WordsOf(len) <= buf.Length && WordsOf(len) <= start + 1 <= stack.Length
    modifies stack
    ensures stack[..] == Restored(old(stack[..]), buf[..], start, WordsOf(len))
  {
    hide Restored, WordsOf;
    ghost var n := WordsOf(len);
    WordsLeft(len, 0);
    var from, to, left, more := 0, start as int, len as int, true;
    while more
      invariant 0 <= from <= n && to == start - from && left == len - 8 * from
      invariant more <==> from < n
      invariant forall i :: 0 <= i < stack.Length ==>
        stack[i] == if to < i <= start then buf[start - i] else old(stack[i])
      decreases n - from
    {
      WordsLeft(len, from);
      stack[to] := buf[from];
      from := from + 1;
      to := to - 1;
      more := left > 8;
      left := left - 8;
    }
  }

  /** The flag the loops test after a word tells whether a word is left. */
  lemma WordsLeft(len: nat, done: nat)
    ensures done < WordsOf(len) ==> (len - 8 * done > 8 <==> done + 1 < WordsOf(len))
    ensures WordsOf(len) >= 1
  {
  }

  class Profile {
    var hasStart: bool
    var start: nat
    var len: nat
    var capacity: nat
    var buf: array<Word>
    var entry: Word

    function View(): Context
      reads this, buf
    {
      Context(hasStart, start, len, capacity, buf[..], entry)
    }

    constructor (entry: Word)
      ensures View() == Empty(entry) && fresh(buf)
    {
      this.entry := entry;
      hasStart, start, len, capacity := false, 0, 0, UNIT;
      buf := new Word[UNIT / 8](_ => 0);
    }

    method CheckStackFramesBufCapacity()
      requires capacity % UNIT == 0 && UNIT <= capacity <= LIMIT && buf.Length == capacity / 8
      requires len > capacity ==> len < LIMIT
      modifies this`buf, this`capacity
      ensures capacity == Capacity(old(capacity), len) && buf.Length == capacity / 8
      ensures old(buf.Length) <= buf.Length && buf[..] == old(buf[..]) + Zeros(buf.Length - old(buf.Length))
      ensures buf == old(buf) || fresh(buf)
    {
      SaveFits(capacity, len);
      if len > capacity {
        var neo := len;
        if neo % UNIT != 0 {
          neo := (neo / UNIT + 1) * UNIT;
        }
        var block := new Word[neo / 8](_ => 0);
        forall i | 0 <= i < buf.Length {
          block[i] := buf[i];
        }
        buf := block;
        capacity := neo;
      }
    }

    /** The assertions of the source are the requirements; `back` is the return address a first start leaves. */
    method CoYieldTo(to: Profile, stack: array<Word>, rsp: nat, back: Word)
      requires this != to && buf != to.buf && stack != buf && stack != to.buf
      requires Sound(View()) && Sound(to.View())
      requires CanSave(View(), stack.Length, rsp) && CanResume(to.View(), stack.Length, rsp)
      requires to.hasStart ==> AfterSave(View(), stack[..], rsp).len < LIMIT
      modifies this`len, this`capacity, this`buf, buf, to`hasStart, to`start, stack
      ensures View() == AfterSave(old(View()), old(stack[..]), rsp)
      ensures to.View() == Begun(old(to.View()), rsp)
      ensures stack[..] == ResumedStack(old(to.View()), old(stack[..]), rsp, back)
      ensures buf == old(buf) || fresh(buf)
      ensures to.buf == old(to.buf)
    {
      hide AfterSave, ResumedStack, Begun, CanSave, CanResume, Sound;
      SaveOwn(stack, rsp);
      to.TakeOver(stack, rsp, back);
    }

    /** The first half: the frames of a coroutine that has started go to its buffer. */
    method SaveOwn(stack: array<Word>, rsp: nat)
      requires stack != buf && Sound(View()) && CanSave(View(), stack.Length, rsp)
      modifies this`len, this`capacity, this`buf, buf
      ensures View() == AfterSave(old(View()), stack[..], rsp)
      ensures buf == old(buf) || fresh(buf)
    {
      if hasStart {
        SaveByFields(View(), stack[..], rsp);
        hide Saved, Restored, AfterSave, Capacity, WordsOf, Zeros, CanSave, Sound;
        len := 8 * (start - rsp) + 8;
        CheckStackFramesBufCapacity();
        SaveStackFrames(buf, stack, start, len);
      }
    }

    /** The second half: frames come back from the buffer, or the coroutine starts. */
    method TakeOver(stack: array<Word>, rsp: nat, back: Word)
      requires stack != buf && Sound(View()) && CanResume(View(), stack.Length, rsp)
      modifies this`hasStart, this`start, stack
      ensures View() == Begun(old(View()), rsp)
      ensures stack[..] == ResumedStack(old(View()), old(stack[..]), rsp, back)
    {
      hide Restored;
      if hasStart {
        RestoreStackFrames(buf, stack, start, len);
      } else {
        hasStart := true;
        stack[rsp - 1] := back;
        stack[rsp - 2] := entry;
        start := rsp - 2;
      }
    }
  }

  class Dispatcher {
    const stack: array<Word>
    /** The main coroutine, then the added ones. */
    var coroutines: seq<Profile>
    var curr: nat

    ghost predicate Separate()
      reads this, coroutines
    {
      && curr < |coroutines|
      && (forall i :: 0 <= i < |coroutines| ==> coroutines[i].buf != stack)
      && (forall i, j :: 0 <= i < j < |coroutines| ==>
        coroutines[i] != coroutines[j] && coroutines[i].buf != coroutines[j].buf)
    }

    ghost function View(): Machine
      reads this, stack, coroutines, set c <- coroutines :: c.buf
    {
      Machine(stack[..], Contexts(coroutines), curr)
    }

    constructor (stack: array<Word>, main: Profile)
      requires main.buf != stack
      ensures this.stack == stack && coroutines == [main] && curr == 0 && Separate()
    {
      this.stack := stack;
      coroutines := [main];
      curr := 0;
    }

    method AddCoroutine(co: Profile)
      requires Separate() && co.buf != stack
      requires forall c <- coroutines :: c != co && c.buf != co.buf
      modifies this`coroutines
      ensures Separate() && coroutines == old(coroutines) + [co]
      ensures View() == old(View()).(cos := old(View()).cos + [co.View()])
    {
      coroutines := coroutines + [co];
    }

    /** What a coroutine does between two yields: anything, as far as the stack goes. */
    method Overwrite(words: seq<Word>)
      requires Separate() && |words| == stack.Length
      modifies stack
      ensures Separate() && View() == old(View()).(stack := words)
    {
      forall i | 0 <= i < stack.Length {
        stack[i] := words[i];
      }
      assert stack[..] == words;
    }

    /** `CoStart`: the main coroutine gives way to the first one added, if there is one. */
    method CoStart(rsp: nat, back: Word)
      requires Separate() && curr == 0
      requires |coroutines| > 1 ==> Legal(View(), Yield(1, rsp, back))
      modifies this`curr, stack, coroutines, coroutines[0].buf
      ensures Separate() && coroutines == old(coroutines)
      ensures forall i :: 0 <= i < |coroutines| ==>
        coroutines[i].buf == old(coroutines[i].buf) || fresh(coroutines[i].buf)
      ensures View() == if |coroutines| > 1 then Next(old(View()), Yield(1, rsp, back)) else old(View())
    {
      if |coroutines| <= 1 {
        return;
      }
      Switch(1, rsp, back);
    }

    method CoYieldCurr(rsp: nat, back: Word)
      requires Separate() && |coroutines| > 1
      requires Legal(View(), Yield(Following(curr, |coroutines|), rsp, back))
      modifies this`curr, stack, coroutines, coroutines[curr].buf
      ensures Separate() && coroutines == old(coroutines)
      ensures forall i :: 0 <= i < |coroutines| ==>
        coroutines[i].buf == old(coroutines[i].buf) || fresh(coroutines[i].buf)
      ensures View() == Next(old(View()), Yield(Following(old(curr), |coroutines|), rsp, back))
    {
      var to := curr + 1;
      if to == |coroutines| {
        to := 1;
      }
      Switch(to, rsp, back);
    }

    method Switch(to: nat, rsp: nat, back: Word)
      requires Separate() && Legal(View(), Yield(to, rsp, back))
      modifies this`curr, stack, coroutines[curr], coroutines[curr].buf, coroutines[to]
      ensures Separate() && coroutines == old(coroutines)
      ensures forall i :: 0 <= i < |coroutines| ==>
        coroutines[i].buf == old(coroutines[i].buf) || fresh(coroutines[i].buf)
      ensures View() == Next(old(View()), Yield(to, rsp, back))
    {
      hide AfterSave, ResumedStack, Begun, CanSave, CanResume, Sound;
      var from := curr;
      ghost var was := View();
      YieldFacts(was, to, rsp, back);
      hide Legal, Next;
      curr := to;
      coroutines[from].CoYieldTo(coroutines[to], stack, rsp, back);
      forall i | 0 <= i < |coroutines|
        ensures coroutines[i].View() == Next(was, Yield(to, rsp, back)).cos[i]
      {
        if i != from && i != to {
          assert coroutines[i].View() == was.cos[i];
        }
      }
    }

    method AddNew(entry: Word)
      requires Separate()
      modifies this`coroutines
      ensures Separate() && View() == Next(old(View()), Add(entry))
      ensures |coroutines| == |old(coroutines)| + 1 && coroutines[..|old(coroutines)|] == old(coroutines)
      ensures var co := coroutines[|old(coroutines)|]; fresh(co) && fresh(co.buf)
    {
      hide Empty;
      var co := new Profile(entry);
      AddCoroutine(co);
    }

    /** One event of a run. */
    method Step(e: Event)
      requires Separate() && Legal(View(), e) && (e.Yield? ==> e.to == Target(View()))
      modifies this`curr, this`coroutines, stack, coroutines, coroutines[curr].buf
      ensures Separate() && View() == Next(old(View()), e)
      ensures forall c <- coroutines :: c in old(coroutines) || (fresh(c) && fresh(c.buf))
      ensures forall c <- old(coroutines) :: c.buf == old(c.buf) || fresh(c.buf)
    {
      match e
      case Work(words) => Overwrite(words);
      case Add(entry) => AddNew(entry);
      case Yield(_, rsp, back) =>
        hide Legal, Next;
        YieldsInside(View(), e);
        if curr == 0 {
          CoStart(rsp, back);
        } else {
          CoYieldCurr(rsp, back);
        }
    }
  }

  /**
   Any run of the scheduler: coroutines that write the stack as they like, add others and yield through
   the dispatcher. The objects go through the states of the machine.
   */
  method Run(size: nat, run: seq<Event>) returns (d: Dispatcher)
    requires LegalRun(Booted(size), run) && Dispatched(Booted(size), run)
    ensures fresh(d) && d.Separate() && d.View() == After(Booted(size), run)
  {
    hide Legal, Next, After, LegalRun, Dispatched, Target, Zeros, Empty, Contexts;
    ghost var m := Booted(size);
    var stack := new Word[size](_ => 0);
    var first := new Profile(0);
    d := new Dispatcher(stack, first);
    BootedView(d.View(), size);
    var i := 0;
    RunStart(m, run);
    while i < |run|
      invariant 0 <= i <= |run| && LegalRun(m, run[..i]) && d.Separate() && d.View() == After(m, run[..i])
      invariant fresh(d) && fresh(d.stack) && d.stack.Length == size
      invariant forall c <- d.coroutines :: fresh(c) && fresh(c.buf)
    {
      RunStep(m, run, i);
      d.Step(run[i]);
      i := i + 1;
    }
    assert run[..|run|] == run;
  }

  /** A machine with nothing but the main coroutine. */
  function Booted(size: nat): (m: Machine)
    ensures Initial(m) && |m.cos| == 1
  {
    Machine(Zeros(size), [Empty(0)], 0)
  }

  lemma YieldFacts(m: Machine, to: nat, rsp: nat, back: Word)
    requires Legal(m, Yield(to, rsp, back))
    ensures m.running < |m.cos| && to < |m.cos| && to != m.running
    ensures var from, c, r := m.cos[m.running], m.cos[to], Next(m, Yield(to, rsp, back));
            && Sound(from) && Sound(c) && CanSave(from, |m.stack|, rsp) && CanResume(c, |m.stack|, rsp)
            && (c.started ==> AfterSave(from, m.stack, rsp).len < LIMIT)
            && r.running == to && r.stack == ResumedStack(c, m.stack, rsp, back)
            && r.cos == m.cos[m.running := AfterSave(from, m.stack, rsp)][to := Begun(c, rsp)]
  {
    hide AfterSave, ResumedStack, Begun, CanSave, CanResume, Sound;
  }

  lemma YieldsInside(m: Machine, e: Event)
    requires Legal(m, e) && e.Yield?
    ensures e.to < |m.cos|
  {
  }

  lemma BootedView(m: Machine, size: nat)
    requires |m.stack| == size && forall i :: 0 <= i < size ==> m.stack[i] == 0
    requires m.cos == [Empty(0)] && m.running == 0
    ensures m == Booted(size)
  {
  }

  lemma RunStart(m: Machine, run: seq<Event>)
    ensures LegalRun(m, run[..0]) && After(m, run[..0]) == m
  {
  }

  lemma RunStep(m: Machine, run: seq<Event>, i: nat)
    requires LegalRun(m, run) && Dispatched(m, run) && i < |run|
    ensures LegalRun(m, run[..i]) && LegalRun(m, run[..i + 1])
    ensures Legal(After(m, run[..i]), run[i]) && After(m, run[..i + 1]) == Next(After(m, run[..i]), run[i])
    ensures run[i].Yield? ==> run[i].to == Target(After(m, run[..i]))
  {
    RunPrefix(m, run, i + 1);
    assert run[..i + 1][..i] == run[..i];
  }

  ghost function Contexts(cos: seq<Profile>): (r: seq<Context>)
    reads cos, set c <- cos :: c.buf
    ensures |r| == |cos| && forall i :: 0 <= i < |cos| ==> r[i] == cos[i].View()
  {
    if cos == [] then [] else Contexts(cos[..|cos| - 1]) + [cos[|cos| - 1].View()]
  }
}
