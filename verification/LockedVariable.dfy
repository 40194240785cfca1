/** A variable of several words behind a flag that is taken by a compare-and-swap loop, as a machine of
    steps that any number of threads take in any order. A weak compare-and-swap may fail for no
    reason. Every run is one of a register whose operations happen at single points. */
module LockedVariable {

  type Tid = nat
  type Value = seq<int>

  datatype Op = Get | Set(value: Value)

  /** Where a thread is: the local `expected` belongs to the loop, and `copied` is what has been copied
      so far, out of the variable or into it. */
  datatype Thread =
    | Idle
    | Trying(op: Op, expected: bool)
    | Failed(op: Op, expected: bool)
    | Copying(op: Op, copied: Value)
    | Leaving(op: Op, copied: Value)

  datatype Event =
    | Invoked(t: Tid, op: Op)
    | Took(t: Tid, op: Op, value: Value)      // the point at which the operation happens
    | Returned(t: Tid, op: Op, value: Value)

  datatype State = State(flag: bool, words: Value, threads: map<Tid, Thread>, history: seq<Event>)

  datatype Step = Invoke(op: Op) | CompareExchange(spurious: bool) | Reset | CopyWord | Release | Return

  function Start(initial: Value, tids: set<Tid>): State {
    State(false, initial, map t | t in tids :: Idle, [])
  }

  predicate Enabled(s: State, t: Tid, step: Step) {
    && t in s.threads
    && match step
       case Invoke(op) => s.threads[t].Idle? && (op.Set? ==> |op.value| == |s.words|)
       case CompareExchange(_) => s.threads[t].Trying?
       case Reset => s.threads[t].Failed?
       case CopyWord => s.threads[t].Copying? && |s.threads[t].copied| < |s.words|
       case Release => s.threads[t].Copying? && |s.threads[t].copied| == |s.words|
       case Return => s.threads[t].Leaving?
  }

  /** The effect of one step. The compare-and-swap succeeds where the flag is as expected, or not even
      then; where it fails it puts the flag into `expected`. */
  function Apply(s: State, t: Tid, step: Step): State
    requires Enabled(s, t, step)
  {
    var thread := s.threads[t];
    match step
    case Invoke(op) =>
      s.(threads := s.threads[t := Trying(op, false)], history := s.history + [Invoked(t, op)])
    case CompareExchange(spurious) =>
      if s.flag == thread.expected && !spurious
      then s.(flag := true, threads := s.threads[t := Copying(thread.op, [])])
      else s.(threads := s.threads[t := Failed(thread.op, s.flag)])
    case Reset =>
      s.(threads := s.threads[t := Trying(thread.op, false)])
    case CopyWord =>
      var i := |thread.copied|;
      if thread.op.Get?
      then s.(threads := s.threads[t := Copying(Get, thread.copied + [s.words[i]])])
      else if i < |thread.op.value|
      then s.(words := s.words[i := thread.op.value[i]],
              threads := s.threads[t := Copying(thread.op, thread.copied + [thread.op.value[i]])])
      else s
    case Release =>
      s.(flag := false, threads := s.threads[t := Leaving(thread.op, thread.copied)],
         history := s.history + [Took(t, thread.op, thread.copied)])
    case Return =>
      s.(threads := s.threads[t := Idle], history := s.history + [Returned(t, thread.op, thread.copied)])
  }

  ghost predicate Runs(s: State, steps: seq<(Tid, Step)>, s': State)
    decreases |steps|
  {
    if steps == [] then s == s'
    else Enabled(s, steps[0].0, steps[0].1) && Runs(Apply(s, steps[0].0, steps[0].1), steps[1..], s')
  }

  // ----- What histories should look like ------------------------------------------------------------

  /** The value of the register after `history`: the one set last. */
  function Register(history: seq<Event>, initial: Value): Value {
    if history == [] then initial
    else
      var last := history[|history| - 1];
      if last.Took? && last.op.Set? then last.op.value else Register(history[..|history| - 1], initial)
  }

  /** Where a thread stands, by the history alone. */
  datatype Phase = Out | Called(op: Op) | Happened(op: Op, value: Value) | Broken

  function NextPhase(phase: Phase, event: Event): Phase {
    match event
    case Invoked(_, op) => if phase.Out? then Called(op) else Broken
    case Took(_, op, value) => if phase == Called(op) then Happened(op, value) else Broken
    case Returned(_, op, value) => if phase == Happened(op, value) then Out else Broken
  }

  function PhaseOf(history: seq<Event>, t: Tid): Phase {
    if history == [] then Out
    else
      var before := PhaseOf(history[..|history| - 1], t);
      var last := history[|history| - 1];
      if last.t == t then NextPhase(before, last) else before
  }

  /** Each operation happens at one point between its call and its return, and at that point a get takes
      the value of the register. */
  ghost predicate Linearized(history: seq<Event>, initial: Value) {
    && (forall t :: PhaseOf(history, t) != Broken)
    && (forall i :: 0 <= i < |history| && history[i].Took? ==> Right(history, i, initial))
  }

  predicate Right(history: seq<Event>, i: nat, initial: Value)
    requires i < |history| && history[i].Took?
  {
    history[i].value == if history[i].op.Get? then Register(history[..i], initial) else history[i].op.value
  }

  // ----- The invariant ------------------------------------------------------------------------------

  predicate Critical(s: State, t: Tid) {
    t in s.threads && s.threads[t].Copying?
  }

  function Expected(thread: Thread): Phase {
    match thread
    case Idle => Out
    case Trying(op, _) => Called(op)
    case Failed(op, _) => Called(op)
    case Copying(op, _) => Called(op)
    case Leaving(op, value) => Happened(op, value)
  }

  predicate ThreadSound(thread: Thread, words: Value, register: Value) {
    match thread
    case Idle => true
    case Trying(op, expected) => !expected && (op.Set? ==> |op.value| == |words|)
    case Failed(op, _) => op.Set? ==> |op.value| == |words|
    case Copying(op, copied) =>
      var k, target := |copied|, if op.Get? then register else op.value;
      |target| == |words| == |register| && k <= |words| && copied == target[..k] && words == copied + register[k..]
    case Leaving(_, _) => true
  }

  ghost predicate Inv(s: State, initial: Value) {
    var register := Register(s.history, initial);
    && |register| == |s.words| == |initial|
    && (forall t :: t in s.threads ==> ThreadSound(s.threads[t], s.words, register))
    && (forall t :: PhaseOf(s.history, t) == if t in s.threads then Expected(s.threads[t]) else Out)
    && (s.flag <==> exists t :: Critical(s, t))
    && (forall t, u :: Critical(s, t) && Critical(s, u) ==> t == u)
    && (!s.flag ==> s.words == register)
    && (forall i :: 0 <= i < |s.history| && s.history[i].Took? ==> Right(s.history, i, initial))
  }

  // ----- One more event -----------------------------------------------------------------------------

  lemma RegisterNext(history: seq<Event>, event: Event, initial: Value)
    ensures Register(history + [event], initial)
         == if event.Took? && event.op.Set? then event.op.value else Register(history, initial)
  {
    assert (history + [event])[..|history|] == history;
  }

  lemma PhaseNext(history: seq<Event>, event: Event)
    ensures forall t :: PhaseOf(history + [event], t)
                     == if event.t == t then NextPhase(PhaseOf(history, t), event) else PhaseOf(history, t)
  {
    assert (history + [event])[..|history|] == history;
  }

  lemma RightNext(history: seq<Event>, event: Event, initial: Value)
    requires forall i :: 0 <= i < |history| && history[i].Took? ==> Right(history, i, initial)
    requires event.Took? ==> event.value == if event.op.Get? then Register(history, initial) else event.op.value
    ensures forall i :: 0 <= i < |history + [event]| && (history + [event])[i].Took? ==>
              Right(history + [event], i, initial)
  {
    var longer := history + [event];
    forall i | 0 <= i < |longer| && longer[i].Took?
      ensures Right(longer, i, initial)
    {
      assert longer[..i] == history[..i];
      if i == |history| {
        assert history[..i] == history;
      } else {
        assert Right(history, i, initial);
      }
    }
  }

  // ----- Every step keeps the invariant -------------------------------------------------------------

  /** A step of t that touches neither flag nor words, and leaves t outside the critical section. */
  lemma OutsideKeeps(s: State, t: Tid, thread: Thread, history: seq<Event>, initial: Value)
    requires Inv(s, initial) && t in s.threads && !s.threads[t].Copying? && !thread.Copying?
    requires Register(history, initial) == Register(s.history, initial)
    requires ThreadSound(thread, s.words, Register(s.history, initial))
    requires forall u :: PhaseOf(history, u) == if u == t then Expected(thread) else PhaseOf(s.history, u)
    requires forall i :: 0 <= i < |history| && history[i].Took? ==> Right(history, i, initial)
    ensures Inv(s.(threads := s.threads[t := thread], history := history), initial)
  {
    hide Register, PhaseOf, Right, ThreadSound, Expected;
    var s' := s.(threads := s.threads[t := thread], history := history);
    forall u
      ensures Critical(s', u) <==> Critical(s, u)
    {
    }
  }

  lemma InvokeKeeps(s: State, t: Tid, op: Op, initial: Value)
    requires Inv(s, initial) && Enabled(s, t, Invoke(op))
    ensures Inv(Apply(s, t, Invoke(op)), initial)
  {
    var event := Invoked(t, op);
    RegisterNext(s.history, event, initial);
    PhaseNext(s.history, event);
    RightNext(s.history, event, initial);
    OutsideKeeps(s, t, Trying(op, false), s.history + [event], initial);
  }

  lemma ReturnKeeps(s: State, t: Tid, initial: Value)
    requires Inv(s, initial) && Enabled(s, t, Return)
    ensures Inv(Apply(s, t, Return), initial)
  {
    var event := Returned(t, s.threads[t].op, s.threads[t].copied);
    RegisterNext(s.history, event, initial);
    PhaseNext(s.history, event);
    RightNext(s.history, event, initial);
    OutsideKeeps(s, t, Idle, s.history + [event], initial);
  }

  lemma ResetKeeps(s: State, t: Tid, initial: Value)
    requires Inv(s, initial) && Enabled(s, t, Reset)
    ensures Inv(Apply(s, t, Reset), initial)
  {
    OutsideKeeps(s, t, Trying(s.threads[t].op, false), s.history, initial);
  }

  /** A successful compare-and-swap lets the thread in alone, since it only succeeds on a free flag. */
  lemma CompareExchangeKeeps(s: State, t: Tid, spurious: bool, initial: Value)
    requires Inv(s, initial) && Enabled(s, t, CompareExchange(spurious))
    ensures Inv(Apply(s, t, CompareExchange(spurious)), initial)
  {
    var thread := s.threads[t];
    if s.flag == thread.expected && !spurious {
      EnterKeeps(s, t, initial);
    } else {
      OutsideKeeps(s, t, Failed(thread.op, s.flag), s.history, initial);
    }
  }

  lemma EnterKeeps(s: State, t: Tid, initial: Value)
    requires Inv(s, initial) && t in s.threads && s.threads[t].Trying? && !s.flag
    ensures Inv(s.(flag := true, threads := s.threads[t := Copying(s.threads[t].op, [])]), initial)
  {
    hide Register, PhaseOf, Right;
    var s' := s.(flag := true, threads := s.threads[t := Copying(s.threads[t].op, [])]);
    assert forall u :: !Critical(s, u);
    assert forall u :: Critical(s', u) ==> u == t || Critical(s, u);
    assert Critical(s', t);
    assert ThreadSound(s'.threads[t], s.words, Register(s.history, initial));
  }

  /** Copying a word: the words stay the copied ones followed by those of the register. */
  lemma CopyWordKeeps(s: State, t: Tid, initial: Value)
    requires Inv(s, initial) && Enabled(s, t, CopyWord)
    ensures Inv(Apply(s, t, CopyWord), initial)
  {
    hide PhaseOf, Right;
    var s' := Apply(s, t, CopyWord);
    var register := Register(s.history, initial);
    assert Critical(s, t);
    assert ThreadSound(s.threads[t], s.words, register);
    CopiedOne(s.threads[t], s.words, register);
    hide Register, ThreadSound;
    forall u
      ensures Critical(s', u) <==> Critical(s, u)
    {
    }
    forall u | u in s'.threads && u != t
      ensures ThreadSound(s'.threads[u], s'.words, register)
    {
      assert !Critical(s, u) && ThreadSound(s.threads[u], s.words, register);
      OthersUntouched(s.threads[u], s.words, s'.words, register);
    }
  }

  lemma CopiedOne(thread: Thread, words: Value, register: Value)
    requires thread.Copying? && |thread.copied| < |words| && ThreadSound(thread, words, register)
    ensures var i := |thread.copied|;
            thread.op.Get? ==> ThreadSound(Copying(Get, thread.copied + [words[i]]), words, register)
    ensures var i := |thread.copied|;
            thread.op.Set? ==>
              i < |thread.op.value| &&
              ThreadSound(Copying(thread.op, thread.copied + [thread.op.value[i]]),
                          words[i := thread.op.value[i]], register)
  {
    var i := |thread.copied|;
    assert register[i..] == [register[i]] + register[i + 1..];
    assert words[i] == register[i];
  }

  lemma OthersUntouched(thread: Thread, words: Value, words': Value, register: Value)
    requires !thread.Copying? && ThreadSound(thread, words, register) && |words| == |words'|
    ensures ThreadSound(thread, words', register)
  {
  }

  /** Leaving: a set has written all of its value, a get has read all of the register. */
  lemma ReleaseKeeps(s: State, t: Tid, initial: Value)
    requires Inv(s, initial) && Enabled(s, t, Release)
    ensures Inv(Apply(s, t, Release), initial)
  {
    var s', thread, register := Apply(s, t, Release), s.threads[t], Register(s.history, initial);
    var event := Took(t, thread.op, thread.copied);
    assert Critical(s, t);
    assert ThreadSound(thread, s.words, register);
    CopiedAll(thread, s.words, register);
    RegisterNext(s.history, event, initial);
    PhaseNext(s.history, event);
    RightNext(s.history, event, initial);
    var register' := Register(s'.history, initial);
    assert s'.words == register';
    hide Register, PhaseOf, Right, ThreadSound;
    assert forall u :: Critical(s', u) ==> Critical(s, u) && u != t;
    forall u | u in s'.threads && u != t
      ensures ThreadSound(s'.threads[u], s'.words, register')
    {
      assert !Critical(s, u) && ThreadSound(s.threads[u], s.words, register);
      RegisterUntouched(s.threads[u], s.words, register, register');
    }
    LeavingSound(s'.threads[t], s'.words, register');
  }

  lemma CopiedAll(thread: Thread, words: Value, register: Value)
    requires thread.Copying? && |thread.copied| == |words| && ThreadSound(thread, words, register)
    ensures words == thread.copied == if thread.op.Get? then register else thread.op.value
  {
  }

  lemma RegisterUntouched(thread: Thread, words: Value, register: Value, register': Value)
    requires !thread.Copying? && ThreadSound(thread, words, register)
    ensures ThreadSound(thread, words, register')
  {
  }

  lemma LeavingSound(thread: Thread, words: Value, register: Value)
    requires thread.Leaving?
    ensures ThreadSound(thread, words, register)
  {
  }

  lemma StepKeeps(s: State, t: Tid, step: Step, initial: Value)
    requires Inv(s, initial) && Enabled(s, t, step)
    ensures Inv(Apply(s, t, step), initial)
  {
    hide Inv, Apply;
    match step
    case Invoke(op) => InvokeKeeps(s, t, op, initial);
    case CompareExchange(spurious) => CompareExchangeKeeps(s, t, spurious, initial);
    case Reset => ResetKeeps(s, t, initial);
    case CopyWord => CopyWordKeeps(s, t, initial);
    case Release => ReleaseKeeps(s, t, initial);
    case Return => ReturnKeeps(s, t, initial);
  }

  // ----- Every run ----------------------------------------------------------------------------------

  lemma {:induction false} RunKeeps(s: State, steps: seq<(Tid, Step)>, s': State, initial: Value)
    requires Inv(s, initial) && Runs(s, steps, s')
    ensures Inv(s', initial)
    decreases |steps|
  {
    if steps != [] {
      hide Inv, Apply, Enabled;
      StepKeeps(s, steps[0].0, steps[0].1, initial);
      RunKeeps(Apply(s, steps[0].0, steps[0].1), steps[1..], s', initial);
    }
  }

  lemma StartInv(initial: Value, tids: set<Tid>)
    ensures Inv(Start(initial, tids), initial)
  {
  }

  /** Whatever the threads do, in whatever order: the flag is up exactly when one thread is between its
      compare-and-swap and its store, no two threads ever are, and the history is that of a register. */
  lemma Linearizable(initial: Value, tids: set<Tid>, steps: seq<(Tid, Step)>, s: State)
    requires Runs(Start(initial, tids), steps, s)
    ensures s.flag <==> exists t :: Critical(s, t)
    ensures forall t, u :: Critical(s, t) && Critical(s, u) ==> t == u
    ensures Linearized(s.history, initial)
  {
    StartInv(initial, tids);
    RunKeeps(Start(initial, tids), steps, s, initial);
  }

  // ----- What that means for a caller ---------------------------------------------------------------

  /** The last event of a thread that is not outside. */
  lemma {:induction false} LastOf(history: seq<Event>, t: Tid) returns (i: nat)
    requires PhaseOf(history, t) != Out
    ensures i < |history| && history[i].t == t
    ensures forall k :: i < k < |history| ==> history[k].t != t
    ensures PhaseOf(history, t) == NextPhase(PhaseOf(history[..i], t), history[i])
    decreases |history|
  {
    var n := |history| - 1;
    if history[n].t == t {
      return n;
    }
    i := LastOf(history[..n], t);
    assert history[..n][..i] == history[..i];
    forall k | i < k < |history|
      ensures history[k].t != t
    {
      assert k < n ==> history[..n][k] == history[k];
    }
  }

  /** What is broken stays broken. */
  lemma {:induction false} NeverBroken(history: seq<Event>, i: nat, t: Tid)
    requires i <= |history| && PhaseOf(history, t) != Broken
    ensures PhaseOf(history[..i], t) != Broken
    decreases |history|
  {
    if i < |history| {
      var shorter := history[..|history| - 1];
      NeverBroken(shorter, i, t);
      assert shorter[..i] == history[..i];
    } else {
      assert history[..i] == history;
    }
  }

  /** Every return has its call and, in between, its one point; the thread does nothing else meanwhile. */
  lemma ReturnsTookPlace(history: seq<Event>, initial: Value, q: nat) returns (p: nat, l: nat)
    requires Linearized(history, initial) && q < |history| && history[q].Returned?
    ensures p < l < q
    ensures history[p] == Invoked(history[q].t, history[q].op)
    ensures history[l] == Took(history[q].t, history[q].op, history[q].value)
    ensures forall k :: p < k < q && k != l ==> history[k].t != history[q].t
  {
    var t := history[q].t;
    NeverBroken(history, q + 1, t);
    assert history[..q + 1] == history[..q] + [history[q]];
    PhaseNext(history[..q], history[q]);
    l := LastOf(history[..q], t);
    assert history[..q][..l] == history[..l];
    p := LastOf(history[..l], t);
    assert history[..l][..p] == history[..p];
    forall k | p < k < q && k != l
      ensures history[k].t != t
    {
      if k < l {
        assert history[..l][k] == history[k];
      } else {
        assert history[..q][k] == history[k];
      }
    }
  }

  /** The register holds the value that was there first, or one that was set - never a mixture. */
  lemma {:induction false} RegisterWasSet(history: seq<Event>, initial: Value)
    ensures Register(history, initial) == initial || exists i :: SetAt(history, i, Register(history, initial))
    decreases |history|
  {
    if history != [] {
      var n := |history| - 1;
      if history[n].Took? && history[n].op.Set? {
        assert SetAt(history, n, Register(history, initial));
      } else {
        RegisterWasSet(history[..n], initial);
        if i :| SetAt(history[..n], i, Register(history[..n], initial)) {
          assert SetAt(history, i, Register(history, initial));
        }
      }
    }
  }

  predicate SetAt(history: seq<Event>, i: int, value: Value) {
    0 <= i < |history| && history[i].Took? && history[i].op == Set(value)
  }

  /** No get of any run sees a torn value: it returns, whole, the first value or one that was set
      before it returned. */
  lemma NeverTorn(initial: Value, tids: set<Tid>, steps: seq<(Tid, Step)>, s: State, q: nat)
    requires Runs(Start(initial, tids), steps, s)
    requires q < |s.history| && s.history[q].Returned? && s.history[q].op.Get?
    ensures var value := s.history[q].value;
            value == initial || exists i :: i < q && SetAt(s.history, i, value)
  {
    Linearizable(initial, tids, steps, s);
    var h, value := s.history, s.history[q].value;
    var p, l := ReturnsTookPlace(h, initial, q);
    assert Right(h, l, initial);
    RegisterWasSet(h[..l], initial);
    if i :| SetAt(h[..l], i, Register(h[..l], initial)) {
      assert SetAt(h, i, value);
    }
  }

  /** The thread in the critical section can always go on to its store, and when nobody is in there the
      next compare-and-swap that does not fail for no reason gets in. */
  lemma NeverStuck(s: State, initial: Value)
    requires Inv(s, initial)
    ensures s.flag ==> exists t :: Critical(s, t) && (Enabled(s, t, CopyWord) || Enabled(s, t, Release))
    ensures forall t :: !s.flag && Enabled(s, t, CompareExchange(false)) ==>
              Critical(Apply(s, t, CompareExchange(false)), t)
  {
    if s.flag {
      var t :| Critical(s, t);
      assert ThreadSound(s.threads[t], s.words, Register(s.history, initial));
      assert Enabled(s, t, CopyWord) || Enabled(s, t, Release);
    }
  }

  // ----- Running alone --------------------------------------------------------------------------------

  ghost predicate Alone(steps: seq<(Tid, Step)>, t: Tid) {
    forall i :: 0 <= i < |steps| ==> steps[i].0 == t
  }

  lemma StepFirst(s: State, t: Tid, step: Step, steps: seq<(Tid, Step)>, s': State)
    requires Enabled(s, t, step) && Runs(Apply(s, t, step), steps, s') && Alone(steps, t)
    ensures Runs(s, [(t, step)] + steps, s') && Alone([(t, step)] + steps, t)
  {
    hide Apply, Enabled;
    assert ([(t, step)] + steps)[1..] == steps;
  }

  /** From inside the critical section a thread comes out by itself, with its operation done: it copies
      what is left, stores and returns. */
  lemma {:induction false} ComesOut(s: State, t: Tid, initial: Value)
    returns (steps: seq<(Tid, Step)>, s': State, value: Value)
    requires Inv(s, initial) && Critical(s, t)
    ensures Runs(s, steps, s') && Alone(steps, t) && Inv(s', initial)
    ensures var op := s.threads[t].op;
            && value == (if op.Get? then Register(s.history, initial) else op.value)
            && s'.history == s.history + [Took(t, op, value)] + [Returned(t, op, value)]
            && s'.threads == s.threads[t := Idle] && !s'.flag && s'.words == value
    decreases |s.words| - |s.threads[t].copied|
  {
    var thread := s.threads[t];
    assert ThreadSound(thread, s.words, Register(s.history, initial));
    if |thread.copied| < |s.words| {
      CopyWordKeeps(s, t, initial);
      var next := Apply(s, t, CopyWord);
      Copied(s, t, initial);
      hide Inv, Apply, Enabled, Runs;
      steps, s', value := ComesOut(next, t, initial);
      StepFirst(s, t, CopyWord, steps, s');
      steps := [(t, CopyWord)] + steps;
    } else {
      CopiedAll(thread, s.words, Register(s.history, initial));
      ReleaseKeeps(s, t, initial);
      var next := Apply(s, t, Release);
      value := thread.copied;
      ReturnKeeps(next, t, initial);
      s' := Apply(next, t, Return);
      StepFirst(next, t, Return, [], s');
      StepFirst(s, t, Release, [(t, Return)], s');
      assert [(t, Return)] + [] == [(t, Return)];
      steps := [(t, Release)] + [(t, Return)];
    }
  }

  lemma Copied(s: State, t: Tid, initial: Value)
    requires Inv(s, initial) && Critical(s, t) && |s.threads[t].copied| < |s.words|
    ensures Enabled(s, t, CopyWord)
    ensures var next := Apply(s, t, CopyWord);
            && Critical(next, t) && next.threads[t].op == s.threads[t].op && next.history == s.history
            && |next.words| == |s.words| && |next.threads[t].copied| == |s.threads[t].copied| + 1
            && next.threads[t := Idle] == s.threads[t := Idle]
  {
    assert ThreadSound(s.threads[t], s.words, Register(s.history, initial));
  }

  /** Nobody waits for a stopped thread but the one in the critical section: while the flag is free, any
      thread on its way in gets through alone, whether its last attempt failed or not, and a get returns
      the value of the register. */
  lemma GetsThrough(s: State, t: Tid, initial: Value)
    returns (steps: seq<(Tid, Step)>, s': State, value: Value)
    requires Inv(s, initial) && t in s.threads && !s.flag && (s.threads[t].Trying? || s.threads[t].Failed?)
    ensures Runs(s, steps, s') && Alone(steps, t) && Inv(s', initial)
    ensures var op := s.threads[t].op;
            && value == (if op.Get? then Register(s.history, initial) else op.value)
            && s'.history == s.history + [Took(t, op, value)] + [Returned(t, op, value)]
            && s'.threads == s.threads[t := Idle] && !s'.flag && s'.words == value
    decreases s.threads[t].Failed?
  {
    if s.threads[t].Failed? {
      ResetKeeps(s, t, initial);
      var next := Apply(s, t, Reset);
      assert next.threads[t := Idle] == s.threads[t := Idle];
      steps, s', value := GetsThrough(next, t, initial);
      StepFirst(s, t, Reset, steps, s');
      steps := [(t, Reset)] + steps;
    } else {
      assert ThreadSound(s.threads[t], s.words, Register(s.history, initial));
      CompareExchangeKeeps(s, t, false, initial);
      var next := Apply(s, t, CompareExchange(false));
      assert next.threads[t := Idle] == s.threads[t := Idle];
      steps, s', value := ComesOut(next, t, initial);
      StepFirst(s, t, CompareExchange(false), steps, s');
      steps := [(t, CompareExchange(false))] + steps;
    }
  }
}
