/** The ring shared by any number of senders and readers. `queue_receive` takes a message and
    gives it back in two separate steps, and `Com_Task` takes one and sends it again in two
    more; anything may happen in between. A run is any sequence of such steps. */
module MsgSystem {
  import opened Common
  import opened MsgQueue

  /** What a sender asked for; `id` is the number of the accepted send. */
  datatype Letter = Letter(id: nat, dest: MsgType, topic: string, payload: string)

  /** A copy of a letter on its way. */
  datatype Entry = Entry(id: nat, msg: Msg)

  function LetterOf(e: Entry): Letter {
    Letter(e.id, e.msg.dest, e.msg.topic, e.msg.payload)
  }

  datatype Sys = Sys(
    queue: seq<Entry>,
    held: seq<Entry>,       // taken, and about to be given back or sent again
    delivered: seq<Entry>,  // to the reader it was for
    handled: seq<Entry>,    // by Com_Task
    evicted: seq<Entry>,    // as orphans
    lost: seq<Entry>,       // into a full queue
    sent: seq<Letter>)      // every accepted send so far

  datatype Step = Send(dest: MsgType, topic: string, payload: string) | Take(reader: MsgType) | PutBack(i: nat)

  const INITIAL := Sys([], [], [], [], [], [], [])

  function Enqueue(s: Sys, e: Entry): Sys {
    if |s.queue| < QUEUE_SIZE then s.(queue := s.queue + [e]) else s.(lost := s.lost + [e])
  }

  function TakeBy(s: Sys, reader: MsgType): Sys
    requires s.queue != []
  {
    var e, rest := s.queue[0], s.(queue := s.queue[1..]);
    if reader == Master then
      if MasterHandles(e.msg.dest) then rest.(handled := s.handled + [e])
      else rest.(held := s.held + [e.(msg := e.msg.(count := 0))])
    else match Judge(reader, e.msg)
      case Deliver => rest.(delivered := s.delivered + [e])
      case GiveBack => rest.(held := s.held + [e.(msg := e.msg.(count := e.msg.count + 1))])
      case Evict => rest.(evicted := s.evicted + [e])
  }

  /** A step that cannot be taken leaves the system as it is. */
  function Next(s: Sys, st: Step): Sys {
    match st
    case Send(dest, topic, payload) =>
      if Acceptable(topic, payload) then
        var e := Entry(|s.sent|, Msg(0, dest, topic, |payload|, payload));
        Enqueue(s.(sent := s.sent + [LetterOf(e)]), e)
      else s
    case Take(reader) => if s.queue == [] then s else TakeBy(s, reader)
    case PutBack(i) =>
      if i < |s.held| then Enqueue(s.(held := s.held[..i] + s.held[i + 1..]), s.held[i]) else s
  }

  function Exec(s: Sys, steps: seq<Step>): Sys
    decreases |steps|
  {
    if steps == [] then s else Exec(Next(s, steps[0]), steps[1..])
  }

  // ---------- The ledger ----------

  /** How many copies of letter `x` are among `es`. */
  function Copies(es: seq<Entry>, x: Letter): nat {
    if es == [] then 0 else (if LetterOf(es[0]) == x then 1 else 0) + Copies(es[1..], x)
  }

  lemma {:induction false} CopiesConcat(a: seq<Entry>, b: seq<Entry>, x: Letter)
    ensures Copies(a + b, x) == Copies(a, x) + Copies(b, x)
  {
    if a == [] {
      assert a + b == b;
    } else {
      assert (a + b)[1..] == a[1..] + b;
      CopiesConcat(a[1..], b, x);
    }
  }

  lemma CopiesAppend(es: seq<Entry>, e: Entry, x: Letter)
    ensures Copies(es + [e], x) == Copies(es, x) + if LetterOf(e) == x then 1 else 0
  {
    CopiesConcat(es, [e], x);
    assert [e][1..] == [];
  }

  lemma CopiesRemove(es: seq<Entry>, i: nat, x: Letter)
    requires i < |es|
    ensures Copies(es, x) == Copies(es[..i] + es[i + 1..], x) + if LetterOf(es[i]) == x then 1 else 0
  {
    assert es == es[..i] + ([es[i]] + es[i + 1..]);
    CopiesConcat(es[..i], [es[i]] + es[i + 1..], x);
    CopiesConcat([es[i]], es[i + 1..], x);
    CopiesConcat(es[..i], es[i + 1..], x);
    CopiesAppend([], es[i], x);
    assert [] + [es[i]] == [es[i]];
  }

  /** How many copies of letter `x` there are anywhere. */
  function Everywhere(s: Sys, x: Letter): nat {
    Copies(s.queue, x) + Copies(s.held, x) + Copies(s.delivered, x) + Copies(s.handled, x)
    + Copies(s.evicted, x) + Copies(s.lost, x)
  }

  /** Once for a letter that was sent, else zero. */
  function TimesSent(s: Sys, x: Letter): nat {
    if x.id < |s.sent| && s.sent[x.id] == x then 1 else 0
  }

  predicate SoundEntries(es: seq<Entry>) {
    forall e :: e in es ==> Sound(e.msg)
  }

  /** Messages on their way are within their laps and would be accepted if sent again. */
  predicate Healthy(s: Sys) {
    |s.queue| <= QUEUE_SIZE && SoundEntries(s.queue) && SoundEntries(s.held)
  }

  lemma StepKeepsHealthy(s: Sys, st: Step)
    requires Healthy(s)
    ensures Healthy(Next(s, st))
  {
    if st.Take? && s.queue != [] {
      assert s.queue[0] in s.queue;
    } else if st.PutBack? && st.i < |s.held| {
      assert s.held[st.i] in s.held;
    }
  }

  lemma EnqueueCopies(s: Sys, e: Entry, x: Letter)
    ensures Everywhere(Enqueue(s, e), x) == Everywhere(s, x) + if LetterOf(e) == x then 1 else 0
  {
    CopiesAppend(s.queue, e, x);
    CopiesAppend(s.lost, e, x);
  }

  lemma TakeCopies(s: Sys, reader: MsgType, x: Letter)
    requires s.queue != []
    ensures Everywhere(TakeBy(s, reader), x) == Everywhere(s, x)
  {
    var e, s' := s.queue[0], TakeBy(s, reader);
    if s'.held != s.held {
      var back := s'.held[|s.held|];
      assert s' == s.(queue := s.queue[1..], held := s.held + [back]) && LetterOf(back) == LetterOf(e);
      CopiesAppend(s.held, back, x);
    } else if s'.handled != s.handled {
      CopiesAppend(s.handled, e, x);
    } else if s'.delivered != s.delivered {
      CopiesAppend(s.delivered, e, x);
    } else {
      assert s' == s.(queue := s.queue[1..], evicted := s.evicted + [e]);
      CopiesAppend(s.evicted, e, x);
    }
  }

  lemma PutBackCopies(s: Sys, i: nat, x: Letter)
    ensures Everywhere(Next(s, PutBack(i)), x) == Everywhere(s, x)
  {
    if i < |s.held| {
      CopiesRemove(s.held, i, x);
      EnqueueCopies(s.(held := s.held[..i] + s.held[i + 1..]), s.held[i], x);
    }
  }

  /** No step but a send makes or loses a copy of any letter, and a send makes one, of its own. */
  lemma StepConserves(s: Sys, st: Step, x: Letter)
    ensures Everywhere(Next(s, st), x) - TimesSent(Next(s, st), x) == Everywhere(s, x) - TimesSent(s, x)
  {
    match st
    case Send(dest, topic, payload) =>
      var e := Entry(|s.sent|, Msg(0, dest, topic, |payload|, payload));
      EnqueueCopies(s.(sent := s.sent + [LetterOf(e)]), e, x);
    case Take(reader) =>
      if s.queue != [] {
        TakeCopies(s, reader, x);
      }
    case PutBack(i) =>
      PutBackCopies(s, i, x);
  }

  lemma {:induction false} RunConserves(s: Sys, steps: seq<Step>, x: Letter)
    requires Healthy(s)
    ensures var s' := Exec(s, steps);
            Healthy(s') && Everywhere(s', x) - TimesSent(s', x) == Everywhere(s, x) - TimesSent(s, x)
    decreases |steps|
  {
    if steps != [] {
      StepKeepsHealthy(s, steps[0]);
      StepConserves(s, steps[0], x);
      RunConserves(Next(s, steps[0]), steps[1..], x);
    }
  }

  /** In every run each accepted send is, with its destination, topic and payload unchanged, in
      exactly one place, once; nothing is anywhere that was not sent; the queue keeps its size. */
  lemma EveryLetterInOnePlace(steps: seq<Step>, x: Letter)
    ensures var s := Exec(INITIAL, steps);
            Healthy(s) && |s.queue| <= 5 && Everywhere(s, x) == if x.id < |s.sent| && s.sent[x.id] == x then 1 else 0
  {
    RunConserves(INITIAL, steps, x);
  }

  /** How a message may leave the ring: lost only to a full queue, evicted only by a reader it is
      not for and with no lap left, delivered only to the reader it is for. */
  lemma WaysOut(s: Sys, st: Step)
    ensures Next(s, st).lost != s.lost ==> |s.queue| >= QUEUE_SIZE
    ensures Next(s, st).evicted != s.evicted ==>
              st.Take? && s.queue != [] && st.reader != Master && st.reader != s.queue[0].msg.dest
              && s.queue[0].msg.count >= QUEUE_MAX_LAP && Next(s, st).evicted == s.evicted + [s.queue[0]]
    ensures Next(s, st).delivered != s.delivered ==>
              st.Take? && s.queue != [] && st.reader == s.queue[0].msg.dest
              && Next(s, st).delivered == s.delivered + [s.queue[0]]
    ensures Next(s, st).handled != s.handled ==>
              st.Take? && s.queue != [] && st.reader == Master && MasterHandles(s.queue[0].msg.dest)
              && Next(s, st).handled == s.handled + [s.queue[0]]
  {
  }

  /** The ways out of the ring. */
  datatype Way = ToReader | ToMaster | Orphaned | Overflowed

  function Gone(s: Sys, w: Way): seq<Entry> {
    match w
    case ToReader => s.delivered
    case ToMaster => s.handled
    case Orphaned => s.evicted
    case Overflowed => s.lost
  }

  /** The step takes letter `x` from the front of the queue. */
  predicate TakesIt(s: Sys, st: Step, x: Letter) {
    st.Take? && s.queue != [] && LetterOf(s.queue[0]) == x
  }

  /** The step is one by which letter `x` may leave the ring on way `w`. */
  predicate LeavesBy(s: Sys, st: Step, x: Letter, w: Way) {
    match w
    case ToReader => TakesIt(s, st, x) && st.reader == x.dest != Master
    case ToMaster => TakesIt(s, st, x) && st.reader == Master && MasterHandles(x.dest)
    case Orphaned => TakesIt(s, st, x) && st.reader !in {x.dest, Master} && s.queue[0].msg.count == QUEUE_MAX_LAP
    case Overflowed =>
      && |s.queue| == QUEUE_SIZE
      && match st
         case Send(dest, topic, payload) => x == Letter(|s.sent|, dest, topic, payload)
         case PutBack(i) => i < |s.held| && LetterOf(s.held[i]) == x
         case Take(_) => false
  }

  lemma {:induction false} LeavesInTime(s: Sys, steps: seq<Step>, x: Letter, w: Way) returns (k: nat)
    requires Healthy(s) && Copies(Gone(s, w), x) == 0 < Copies(Gone(Exec(s, steps), w), x)
    ensures k < |steps| && LeavesBy(Exec(s, steps[..k]), steps[k], x, w)
    decreases |steps|
  {
    var s' := Next(s, steps[0]);
    if Copies(Gone(s', w), x) > 0 {
      k := 0;
      LeavesNow(s, steps[0], x, w);
    } else {
      StepKeepsHealthy(s, steps[0]);
      k := LeavesInTime(s', steps[1..], x, w);
      assert steps[..k + 1][1..] == steps[1..][..k];
      k := k + 1;
    }
  }

  lemma LeavesNow(s: Sys, st: Step, x: Letter, w: Way)
    requires Healthy(s) && Copies(Gone(s, w), x) == 0 < Copies(Gone(Next(s, st), w), x)
    ensures LeavesBy(s, st, x, w)
  {
    var before, after := Gone(s, w), Gone(Next(s, st), w);
    WaysOut(s, st);
    var e := after[|before|];
    assert after == before + [e];
    CopiesAppend(before, e, x);
    if w != Overflowed {
      assert s.queue[0] in s.queue;
    }
  }

  /** In every run, a letter that has left the ring has done so at a step of the run that accounts
      for it: taken by the reader it is for, handled by Com_Task, taken with no lap left by a reader
      it is not for, or sent or given back to a full queue. */
  lemma HowItLeft(steps: seq<Step>, x: Letter, w: Way)
    requires Copies(Gone(Exec(INITIAL, steps), w), x) > 0
    ensures exists k :: 0 <= k < |steps| && LeavesBy(Exec(INITIAL, steps[..k]), steps[k], x, w)
  {
    var k := LeavesInTime(INITIAL, steps, x, w);
  }

  // ---------- Laps ----------

  /** How often letter `x` has been taken by readers it was not for since it was last sent
      afresh, after the step, if it was `n` times before. Com_Task sends afresh what it takes
      and does not handle. */
  function WrongAfter(s: Sys, st: Step, x: Letter, n: nat): nat {
    match st
    case Send(_, _, _) => if |Next(s, st).sent| > |s.sent| && Next(s, st).sent[|s.sent|] == x then 0 else n
    case Take(reader) =>
      if s.queue == [] || LetterOf(s.queue[0]) != x then n
      else if reader == Master then if MasterHandles(x.dest) then n else 0
      else if reader == x.dest then n
      else n + 1
    case PutBack(_) => n
  }

  function WrongTakes(s: Sys, steps: seq<Step>, x: Letter, n: nat): nat
    decreases |steps|
  {
    if steps == [] then n else WrongTakes(Next(s, steps[0]), steps[1..], x, WrongAfter(s, steps[0], x, n))
  }

  /** Every copy of `x` among `es` has `n` laps. */
  predicate Counted(es: seq<Entry>, x: Letter, n: nat) {
    forall e :: e in es && LetterOf(e) == x ==> e.msg.count == n
  }

  lemma {:induction false} CountedWithout(es: seq<Entry>, x: Letter, n: nat)
    requires Copies(es, x) == 0
    ensures Counted(es, x, n)
  {
    if es != [] {
      CountedWithout(es[1..], x, n);
      assert es == [es[0]] + es[1..];
    }
  }

  predicate Tally(s: Sys, x: Letter, n: nat) {
    && Healthy(s) && Everywhere(s, x) == TimesSent(s, x)
    && Counted(s.queue, x, n) && Counted(s.held, x, n)
    && (Copies(s.evicted, x) > 0 ==> n == QUEUE_MAX_LAP + 1)
  }

  lemma CountedAppend(es: seq<Entry>, e: Entry, x: Letter, n: nat)
    requires Counted(es, x, n) && (LetterOf(e) == x ==> e.msg.count == n)
    ensures Counted(es + [e], x, n)
  {
  }

  /** The letter at the front is nowhere else. */
  lemma FrontIsOnly(s: Sys, x: Letter, n: nat)
    requires Tally(s, x, n) && s.queue != [] && LetterOf(s.queue[0]) == x
    ensures s.queue[0].msg.count == n <= QUEUE_MAX_LAP && Copies(s.evicted, x) == 0
    ensures forall n' :: Counted(s.queue[1..], x, n') && Counted(s.held, x, n')
  {
    assert s.queue[0] in s.queue;
    assert Copies(s.queue[1..], x) == Copies(s.held, x) == Copies(s.evicted, x) == 0;
    forall n'
      ensures Counted(s.queue[1..], x, n') && Counted(s.held, x, n')
    {
      CountedWithout(s.queue[1..], x, n');
      CountedWithout(s.held, x, n');
    }
  }

  /** Taken: the only copy of `x` there is on its way. */
  lemma TakeOfIt(s: Sys, reader: MsgType, x: Letter, n: nat)
    requires Tally(s, x, n) && s.queue != [] && LetterOf(s.queue[0]) == x
    ensures var s', n' := TakeBy(s, reader), WrongAfter(s, Take(reader), x, n);
            && Counted(s'.queue, x, n') && Counted(s'.held, x, n')
            && (Copies(s'.evicted, x) > 0 ==> n' == QUEUE_MAX_LAP + 1)
  {
    var s', n' := TakeBy(s, reader), WrongAfter(s, Take(reader), x, n);
    FrontIsOnly(s, x, n);
    assert s'.queue == s.queue[1..];
    if s'.held != s.held {
      assert s'.evicted == s.evicted;
      var back := s'.held[|s.held|];
      assert s'.held == s.held + [back] && back.msg.count == n';
      CountedAppend(s.held, back, x, n');
    }
  }

  lemma TakeOfOther(s: Sys, reader: MsgType, x: Letter, n: nat)
    requires Tally(s, x, n) && s.queue != [] && LetterOf(s.queue[0]) != x
    ensures var s' := TakeBy(s, reader);
            Counted(s'.queue, x, n) && Counted(s'.held, x, n) && (Copies(s'.evicted, x) > 0 ==> n == QUEUE_MAX_LAP + 1)
  {
    var s' := TakeBy(s, reader);
    assert Counted(s.queue[1..], x, n);
    if s'.held != s.held {
      assert s'.queue == s.queue[1..] && s'.evicted == s.evicted;
      var back := s'.held[|s.held|];
      assert s'.held == s.held + [back] && LetterOf(back) != x;
      CountedAppend(s.held, back, x, n);
    } else {
      assert s'.queue == s.queue[1..];
      assert s'.evicted == s.evicted || s'.evicted == s.evicted + [s.queue[0]];
      CopiesAppend(s.evicted, s.queue[0], x);
    }
  }

  lemma SendKeepsTally(s: Sys, st: Step, x: Letter, n: nat)
    requires Tally(s, x, n) && st.Send?
    ensures var s', n' := Next(s, st), WrongAfter(s, st, x, n);
            && Counted(s'.queue, x, n') && Counted(s'.held, x, n')
            && (Copies(s'.evicted, x) > 0 ==> n' == QUEUE_MAX_LAP + 1)
  {
    var s', n' := Next(s, st), WrongAfter(s, st, x, n);
    assert s'.held == s.held && s'.evicted == s.evicted;
    if n' != n {
      assert Copies(s.queue, x) == Copies(s.held, x) == Copies(s.evicted, x) == 0;
      CountedWithout(s.queue, x, 0);
      CountedWithout(s.held, x, 0);
    }
  }

  lemma StepKeepsTally(s: Sys, st: Step, x: Letter, n: nat)
    requires Tally(s, x, n)
    ensures Tally(Next(s, st), x, WrongAfter(s, st, x, n))
  {
    assert Healthy(Next(s, st)) by {
      StepKeepsHealthy(s, st);
    }
    assert Everywhere(Next(s, st), x) == TimesSent(Next(s, st), x) by {
      StepConserves(s, st, x);
    }
    match st
    case Send(_, _, _) => SendKeepsTally(s, st, x, n);
    case Take(reader) =>
      if s.queue != [] {
        if LetterOf(s.queue[0]) == x {
          TakeOfIt(s, reader, x, n);
        } else {
          TakeOfOther(s, reader, x, n);
        }
      }
    case PutBack(i) =>
      if i < |s.held| {
        assert s.held[i] in s.held;
      }
  }

  lemma {:induction false} RunKeepsTally(s: Sys, steps: seq<Step>, x: Letter, n: nat)
    requires Tally(s, x, n)
    ensures Tally(Exec(s, steps), x, WrongTakes(s, steps, x, n))
    decreases |steps|
  {
    if steps != [] {
      StepKeepsTally(s, steps[0], x, n);
      RunKeepsTally(Next(s, steps[0]), steps[1..], x, WrongAfter(s, steps[0], x, n));
    }
  }

  /** In every run the lap count of a copy on its way is how often the letter has been taken by
      readers it was not for since it was last sent afresh, and a letter is evicted at the sixth
      such take, neither earlier nor later. */
  lemma EvictedAtTheSixthTake(steps: seq<Step>, x: Letter)
    ensures var s, n := Exec(INITIAL, steps), WrongTakes(INITIAL, steps, x, 0);
            && Counted(s.queue, x, n) && Counted(s.held, x, n)
            && (Copies(s.evicted, x) > 0 ==> n == 6)
            && (Copies(s.queue, x) + Copies(s.held, x) > 0 ==> n <= 5)
  {
    var s, n := Exec(INITIAL, steps), WrongTakes(INITIAL, steps, x, 0);
    RunKeepsTally(INITIAL, steps, x, 0);
    CountedSound(s.queue, x, n);
    CountedSound(s.held, x, n);
  }

  lemma {:induction false} CountedSound(es: seq<Entry>, x: Letter, n: nat)
    requires Counted(es, x, n) && SoundEntries(es)
    ensures Copies(es, x) > 0 ==> n <= QUEUE_MAX_LAP
  {
    if es != [] {
      assert es[0] in es;
      if LetterOf(es[0]) != x {
        CountedSound(es[1..], x, n);
      }
    }
  }

  // ---------- The dimmer and Com_Task as the only readers ----------

  predicate TwoReaders(steps: seq<Step>) {
    forall st :: st in steps && st.Take? ==> st.reader == DimmerRx || st.reader == Master
  }

  predicate AllFresh(es: seq<Entry>) {
    forall e :: e in es && e.msg.dest == DimmerRx ==> e.msg.count == 0
  }

  predicate NoneFor(es: seq<Entry>, d: MsgType) {
    forall e :: e in es ==> e.msg.dest != d
  }

  predicate DimmerSafe(s: Sys) {
    AllFresh(s.queue) && AllFresh(s.held) && NoneFor(s.evicted, DimmerRx) && NoneFor(s.handled, DimmerRx)
  }

  lemma StepKeepsDimmerSafe(s: Sys, st: Step)
    requires DimmerSafe(s) && TwoReaders([st])
    ensures DimmerSafe(Next(s, st))
  {
    assert st in [st];
    if st.PutBack? && st.i < |s.held| {
      assert s.held[st.i] in s.held;
    }
  }

  lemma {:induction false} RunKeepsDimmerSafe(s: Sys, steps: seq<Step>)
    requires DimmerSafe(s) && TwoReaders(steps)
    ensures DimmerSafe(Exec(s, steps))
    decreases |steps|
  {
    if steps != [] {
      StepKeepsDimmerSafe(s, steps[0]);
      RunKeepsDimmerSafe(Next(s, steps[0]), steps[1..]);
    }
  }

  lemma {:induction false} NoneForNoCopies(es: seq<Entry>, x: Letter)
    requires NoneFor(es, x.dest)
    ensures Copies(es, x) == 0
  {
    if es != [] {
      assert es[0] in es && forall e :: e in es[1..] ==> e in es;
      NoneForNoCopies(es[1..], x);
    }
  }

  /** With those two readers, in every run, an order for the dimmer is waiting, delivered to the
      dimmer, or lost to a full queue, and nothing else: never an orphan, never taken by
      Com_Task for good. While it waits, its lap count is 0. */
  lemma OrdersReachTheDimmer(steps: seq<Step>, x: Letter)
    requires TwoReaders(steps) && x.dest == DimmerRx
    ensures var s := Exec(INITIAL, steps);
            && Copies(s.queue, x) + Copies(s.held, x) + Copies(s.delivered, x) + Copies(s.lost, x) == TimesSent(s, x)
            && AllFresh(s.queue) && AllFresh(s.held)
  {
    var s := Exec(INITIAL, steps);
    RunKeepsDimmerSafe(INITIAL, steps);
    EveryLetterInOnePlace(steps, x);
    NoneForNoCopies(s.evicted, x);
    NoneForNoCopies(s.handled, x);
  }

  // ---------- Eviction terminates ----------

  function LapsLeft(es: seq<Entry>): nat {
    if es == [] then 0
    else QUEUE_MAX_LAP + 1 - Min(es[0].msg.count, QUEUE_MAX_LAP) + LapsLeft(es[1..])
  }

  lemma {:induction false} LapsLeftConcat(a: seq<Entry>, b: seq<Entry>)
    ensures LapsLeft(a + b) == LapsLeft(a) + LapsLeft(b)
  {
    if a == [] {
      assert a + b == b;
    } else {
      assert (a + b)[1..] == a[1..] + b;
      LapsLeftConcat(a[1..], b);
    }
  }

  lemma LapsLeftOne(e: Entry)
    ensures LapsLeft([e]) == QUEUE_MAX_LAP + 1 - Min(e.msg.count, QUEUE_MAX_LAP)
  {
    assert [e][1..] == [];
  }

  /** Laps left to all messages that are on their way. */
  function Weight(s: Sys): nat {
    LapsLeft(s.queue) + LapsLeft(s.held)
  }

  /** The step sends nothing, be it anew or again by Com_Task. */
  predicate SendsNothing(s: Sys, st: Step) {
    match st
    case Send(_, _, _) => false
    case Take(reader) => reader == Master && s.queue != [] ==> MasterHandles(s.queue[0].msg.dest)
    case PutBack(_) => true
  }

  predicate RunSendsNothing(s: Sys, steps: seq<Step>)
    decreases |steps|
  {
    steps == [] || (SendsNothing(s, steps[0]) && RunSendsNothing(Next(s, steps[0]), steps[1..]))
  }

  /** How many times a message is taken in the run. */
  function Takes(s: Sys, steps: seq<Step>): nat
    decreases |steps|
  {
    if steps == [] then 0
    else (if steps[0].Take? && s.queue != [] then 1 else 0) + Takes(Next(s, steps[0]), steps[1..])
  }

  lemma StepUsesLaps(s: Sys, st: Step)
    requires SendsNothing(s, st) && SoundEntries(s.queue)
    ensures Weight(Next(s, st)) + (if st.Take? && s.queue != [] then 1 else 0) <= Weight(s)
  {
    if st.Take? && s.queue != [] {
      var e := s.queue[0];
      assert e in s.queue;
      var back := e.(msg := e.msg.(count := e.msg.count + 1));
      LapsLeftConcat(s.held, [back]);
      LapsLeftOne(back);
    } else if st.PutBack? && st.i < |s.held| {
      PutBackKeepsLaps(s, st.i);
    }
  }

  lemma PutBackKeepsLaps(s: Sys, i: nat)
    requires i < |s.held|
    ensures Weight(Next(s, PutBack(i))) <= Weight(s)
  {
    var e := s.held[i];
    assert s.held == s.held[..i] + ([e] + s.held[i + 1..]);
    LapsLeftConcat(s.held[..i], [e] + s.held[i + 1..]);
    LapsLeftConcat([e], s.held[i + 1..]);
    LapsLeftConcat(s.held[..i], s.held[i + 1..]);
    LapsLeftConcat(s.queue, [e]);
  }

  lemma {:induction false} LapsLeftBound(es: seq<Entry>)
    ensures LapsLeft(es) <= (QUEUE_MAX_LAP + 1) * |es|
  {
    if es != [] {
      LapsLeftBound(es[1..]);
    }
  }

  /** While nothing is sent, the messages on their way can be taken at most 6 times each,
      however the readers interleave. */
  lemma {:induction false} TakesAreBounded(s: Sys, steps: seq<Step>)
    requires Healthy(s) && RunSendsNothing(s, steps)
    ensures Takes(s, steps) + Weight(Exec(s, steps)) <= Weight(s) <= 6 * (|s.queue| + |s.held|)
    decreases |steps|
  {
    LapsLeftBound(s.queue);
    LapsLeftBound(s.held);
    if steps != [] {
      StepUsesLaps(s, steps[0]);
      StepKeepsHealthy(s, steps[0]);
      TakesAreBounded(Next(s, steps[0]), steps[1..]);
    }
  }

  // ---------- The ring read by one task is a run of the system ----------

  function Msgs(es: seq<Entry>): seq<Msg> {
    if es == [] then [] else [es[0].msg] + Msgs(es[1..])
  }

  lemma {:induction false} MsgsAppend(es: seq<Entry>, e: Entry)
    ensures Msgs(es + [e]) == Msgs(es) + [e.msg]
  {
    if es == [] {
      assert es + [e] == [e] && [e][1..] == [];
    } else {
      assert (es + [e])[1..] == es[1..] + [e];
      MsgsAppend(es[1..], e);
    }
  }

  /** Undisturbed, a take and the giving back that may follow are one `queue_receive`. */
  lemma UndisturbedReceive(s: Sys, reader: MsgType)
    requires Healthy(s) && s.held == [] && reader != Master
    ensures Msgs(Next(Next(s, Take(reader)), PutBack(0)).queue) == Received(Msgs(s.queue), reader).0
  {
    if s.queue != [] {
      var s' := Next(s, Take(reader));
      assert s'.queue == s.queue[1..];
      PutBackAll(s');
      var e := s.queue[0];
      match Judge(reader, e.msg)
      case GiveBack => assert s'.held == [e.(msg := e.msg.(count := e.msg.count + 1))];
      case _ => assert s'.held == [];
    }
  }

  /** By MASTER they are one round of `Com_Task` that orders nothing. */
  lemma UndisturbedComTask(s: Sys)
    requires Healthy(s) && s.held == []
    ensures Msgs(Next(Next(s, Take(Master)), PutBack(0)).queue) == AfterComTask(Msgs(s.queue), m => None)
  {
    if s.queue != [] {
      assert s.queue[0] in s.queue;
      PutBackAll(Next(s, Take(Master)));
    }
  }

  /** A round that orders is a take by MASTER and a send to DIMMER_RX, like any other. */
  lemma UndisturbedOrder(s: Sys, order: Msg -> Option<(string, string)>, topic: string, payload: string)
    requires Healthy(s) && s.held == [] && s.queue != []
    requires s.queue[0].msg.dest in {MqttRx, WsRx} && order(s.queue[0].msg) == Some((topic, payload))
    ensures Msgs(Exec(s, [Take(Master), Send(DimmerRx, topic, payload)]).queue) == AfterComTask(Msgs(s.queue), order)
  {
    var s' := Next(s, Take(Master));
    var send := Send(DimmerRx, topic, payload);
    ExecTwo(s, Take(Master), send);
    assert s'.queue == s.queue[1..];
    MsgsLength(s.queue[1..]);
    if Acceptable(topic, payload) {
      MsgsAppend(s'.queue, Entry(|s.sent|, Msg(0, DimmerRx, topic, |payload|, payload)));
    }
  }

  lemma ExecTwo(s: Sys, a: Step, b: Step)
    ensures Exec(s, [a, b]) == Next(Next(s, a), b)
  {
    assert [a, b][1..] == [b] && [b][1..] == [];
    assert Exec(Next(s, a), [b]) == Exec(Next(Next(s, a), b), []);
  }

  lemma {:induction false} MsgsLength(es: seq<Entry>)
    ensures |Msgs(es)| == |es|
  {
    if es != [] {
      MsgsLength(es[1..]);
    }
  }

  lemma PutBackAll(s: Sys)
    requires |s.queue| < QUEUE_SIZE && |s.held| <= 1
    ensures Msgs(Next(s, PutBack(0)).queue) == Msgs(s.queue) + Msgs(s.held)
  {
    if s.held != [] {
      assert Msgs(s.held) == [s.held[0].msg];
      MsgsAppend(s.queue, s.held[0]);
    }
  }
}
