/** FixedSizeLockFreeQueue: one producer and one consumer share a ring of slots through two
    32-bit counters. The protocol is a state machine whose steps are the memory accesses of
    PushBack, PeekFront and PopFront; a list of actions is any interleaving of the two threads
    under sequential consistency. */
module LockFreeQueue {

  /** The counters wrap at 2^32. */
  const WORD: nat := 0x1_0000_0000

  /** PushBack: not running, past the IsFull check, past the slot write. */
  datatype Producer<T> = PushIdle | PushChecked(value: T) | PushWritten(value: T)

  /** PeekFront and PopFront: not running, past the IsEmpty check, past the slot read. */
  datatype Consumer<T> = PopIdle | PopChecked | PopHolds(value: T)

  datatype Queue<T> = Queue(pushed: nat, popped: nat, capacity: nat, slots: seq<T>,
                            producer: Producer<T>, consumer: Consumer<T>)
  {
    ghost predicate WellFormed() {
      pushed < WORD && popped < WORD && capacity < WORD && |slots| == capacity
    }

    predicate IsFull() {
      pushed == (popped + capacity) % WORD
    }

    predicate IsEmpty() {
      pushed == popped
    }

    /** Size(): the difference of the counters as a 32-bit number. */
    function Size(): nat {
      (pushed - popped) % WORD
    }
  }

  /** A run so far: the queue, the values whose push was counted and those whose pop was counted. */
  datatype Trace<T> = Trace(q: Queue<T>, accepted: seq<T>, delivered: seq<T>)

  datatype Action<T> = PushCheck(value: T) | PushWrite | PushCount | PopCheck | PopRead | PopCount | PeekReturn

  function Start<T>(slots: seq<T>): Trace<T> {
    Trace(Queue(0, 0, |slots|, slots, PushIdle, PopIdle), [], [])
  }

  /** One memory access. An action that is not the next one of its thread does nothing. */
  function Step<T>(s: Trace<T>, a: Action<T>): (r: Trace<T>)
    requires s.q.WellFormed()
    ensures r.q.WellFormed() && r.q.capacity == s.q.capacity
  {
    var q := s.q;
    match a
    case PushCheck(v) =>
      if q.producer.PushIdle? && q.capacity != 0 && !q.IsFull() then s.(q := q.(producer := PushChecked(v))) else s
    case PushWrite =>
      if q.producer.PushChecked? && q.capacity != 0 then
        s.(q := q.(slots := q.slots[q.pushed % q.capacity := q.producer.value],
                   producer := PushWritten(q.producer.value)))
      else s
    case PushCount =>
      if q.producer.PushWritten? then
        s.(q := q.(pushed := (q.pushed + 1) % WORD, producer := PushIdle), accepted := s.accepted + [q.producer.value])
      else s
    case PopCheck =>
      if q.consumer.PopIdle? && q.capacity != 0 && !q.IsEmpty() then s.(q := q.(consumer := PopChecked)) else s
    case PopRead =>
      if q.consumer.PopChecked? && q.capacity != 0 then
        s.(q := q.(consumer := PopHolds(q.slots[q.popped % q.capacity])))
      else s
    case PopCount =>
      if q.consumer.PopHolds? then
        s.(q := q.(popped := (q.popped + 1) % WORD, consumer := PopIdle), delivered := s.delivered + [q.consumer.value])
      else s
    case PeekReturn =>
      if q.consumer.PopHolds? then s.(q := q.(consumer := PopIdle)) else s
  }

  function Run<T>(s: Trace<T>, actions: seq<Action<T>>): (r: Trace<T>)
    requires s.q.WellFormed()
    ensures r.q.WellFormed() && r.q.capacity == s.q.capacity
    decreases actions
  {
    if actions == [] then s else Run(Step(s, actions[0]), actions[1..])
  }

  // The bounded FIFO it refines

  /** What was popped is the start of what was pushed, in order; the rest, at most `capacity` values, is
      in the queue; Size() counts it; and a peeked or popped value is the oldest one in the queue. */
  ghost predicate Fifo<T>(s: Trace<T>) {
    && s.delivered <= s.accepted
    && |s.accepted| - |s.delivered| <= s.q.capacity
    && s.q.Size() == |s.accepted| - |s.delivered|
    && (s.q.consumer.PopHolds? ==> |s.delivered| < |s.accepted| && s.q.consumer.value == s.accepted[|s.delivered|])
  }

  /** The slot indices survive the wrap of the counters. */
  ghost predicate Divides(capacity: nat) {
    capacity == 0 || WORD % capacity == 0
  }

  ghost predicate Inv<T>(s: Trace<T>) {
    var q, p, c := s.q, |s.accepted|, |s.delivered|;
    && q.WellFormed() && s.delivered <= s.accepted && p - c <= q.capacity
    && q.pushed == p % WORD && q.popped == c % WORD
    && (forall i {:trigger s.accepted[i]} | c <= i < p :: q.slots[i % q.capacity] == s.accepted[i])
    && (!q.producer.PushIdle? ==> p - c < q.capacity)
    && (q.producer.PushWritten? ==> q.slots[p % q.capacity] == q.producer.value)
    && (!q.consumer.PopIdle? ==> c < p)
    && (q.consumer.PopHolds? ==> q.consumer.value == s.accepted[c])
  }

  // Remainders

  lemma {:induction false} MultipleBound(k: int, d: int)
    requires d >= 0
    ensures k >= 1 ==> k * d >= d
    ensures k <= -1 ==> k * d <= -d
  {
    if k >= 1 {
      assert k * d == (k - 1) * d + d && (k - 1) * d >= 0;
    } else if k <= -1 {
      assert k * d == (k + 1) * d - d && (k + 1) * d <= 0;
    }
  }

  lemma {:induction false} Distribute(a: int, b: int, d: int)
    ensures (a - b) * d == a * d - b * d && (a + b) * d == a * d + b * d
  {
  }

  lemma {:induction false} DivisionIsUnique(n: int, d: nat, q: int, r: nat)
    requires 0 < d && n == q * d + r && r < d
    ensures n % d == r && n / d == q
  {
    var q', r' := n / d, n % d;
    DivMod(n, d);
    Distribute(q, q', d);
    MultipleBound(q - q', d);
  }

  lemma {:induction false} DivMod(n: int, d: nat)
    requires 0 < d
    ensures n == (n / d) * d + n % d
  {
  }

  /** Wrapping first at a multiple of `d` does not change the remainder by `d`. */
  lemma {:induction false} ModOfMod(n: nat, d: nat)
    requires 0 < d && WORD % d == 0
    ensures (n % WORD) % d == n % d
  {
    var k, m, r := n / WORD, WORD / d, n % WORD;
    DivMod(WORD, d);
    DivMod(r, d);
    Reassociate(k, m, d);
    Distribute(k * m, r / d, d);
    DivisionIsUnique(n, d, k * m + r / d, r % d);
  }

  lemma {:induction false} Reassociate(k: int, m: int, d: int)
    ensures k * (m * d) == (k * m) * d
  {
  }

  /** The physical slot of push or pop number `n` is the logical one. */
  lemma {:induction false} SlotOf(n: nat, capacity: nat)
    requires 0 < capacity && (WORD % capacity == 0 || n < WORD)
    ensures (n % WORD) % capacity == n % capacity
  {
    if n >= WORD { ModOfMod(n, capacity); }
  }

  /** Two logical positions less than `capacity` apart have different slots. */
  lemma {:induction false} SlotsAreDistinct(i: nat, j: nat, capacity: nat)
    requires i < j < i + capacity
    ensures i % capacity != j % capacity
  {
    if i % capacity == j % capacity {
      DivMod(i, capacity);
      DivMod(j, capacity);
      Distribute(j / capacity, i / capacity, capacity);
      MultipleBound(j / capacity - i / capacity, capacity);
    }
  }

  /** Counters that wrap at 2^32 tell two counts apart that differ by less. */
  lemma {:induction false} WrappedCounts(p: nat, c: nat, capacity: nat)
    requires c <= p <= c + capacity && capacity < WORD
    ensures (p % WORD - c % WORD) % WORD == p - c
    ensures p % WORD == (c % WORD + capacity) % WORD <==> p - c == capacity
    ensures p % WORD == c % WORD <==> p == c
  {
  }

  lemma {:induction false} InvCounts<T>(s: Trace<T>)
    requires Inv(s)
    ensures |s.delivered| <= |s.accepted| <= |s.delivered| + s.q.capacity && s.q.capacity < WORD
    ensures s.q.pushed == |s.accepted| % WORD && s.q.popped == |s.delivered| % WORD
  {
  }

  lemma {:induction false} FullMeansFull<T>(s: Trace<T>)
    requires Inv(s)
    ensures s.q.Size() == |s.accepted| - |s.delivered|
    ensures s.q.IsFull() <==> |s.accepted| - |s.delivered| == s.q.capacity
    ensures s.q.IsEmpty() <==> |s.accepted| == |s.delivered|
  {
    hide Inv;
    InvCounts(s);
    WrappedCounts(|s.accepted|, |s.delivered|, s.q.capacity);
  }

  lemma {:induction false} PushWriteKeeps<T>(s: Trace<T>)
    requires Inv(s) && s.q.producer.PushChecked?
    requires Divides(s.q.capacity) || |s.accepted| < WORD
    ensures Inv(Step(s, PushWrite))
  {
    var p, c, cap := |s.accepted|, |s.delivered|, s.q.capacity;
    SlotOf(p, cap);
    forall i | c <= i < p ensures i % cap != p % cap { SlotsAreDistinct(i, p, cap); }
  }

  lemma {:induction false} PopReadKeeps<T>(s: Trace<T>)
    requires Inv(s) && s.q.consumer.PopChecked?
    requires Divides(s.q.capacity) || |s.accepted| < WORD
    ensures Inv(Step(s, PopRead))
  {
    SlotOf(|s.delivered|, s.q.capacity);
    assert s.q.slots[|s.delivered| % s.q.capacity] == s.accepted[|s.delivered|];
  }

  lemma {:induction false} Increment(n: nat)
    ensures (n % WORD + 1) % WORD == (n + 1) % WORD
  {
  }

  lemma {:induction false} PushCountKeeps<T>(s: Trace<T>)
    requires Inv(s)
    ensures Inv(Step(s, PushCount))
  {
    Increment(|s.accepted|);
  }

  lemma {:induction false} PopCountKeeps<T>(s: Trace<T>)
    requires Inv(s)
    ensures Inv(Step(s, PopCount))
  {
    Increment(|s.delivered|);
    if s.q.consumer.PopHolds? {
      assert s.accepted[..|s.delivered|] == s.delivered;
      assert s.accepted[..|s.delivered| + 1] == s.delivered + [s.q.consumer.value];
    }
  }

  lemma {:induction false} StepKeeps<T>(s: Trace<T>, a: Action<T>)
    requires Inv(s)
    requires Divides(s.q.capacity) || |s.accepted| < WORD
    ensures Inv(Step(s, a))
  {
    match a
    case PushCheck(v) => FullMeansFull(s);
    case PushWrite => if s.q.producer.PushChecked? { PushWriteKeeps(s); }
    case PushCount => PushCountKeeps(s);
    case PopCheck => FullMeansFull(s);
    case PopRead => if s.q.consumer.PopChecked? { PopReadKeeps(s); }
    case PopCount => PopCountKeeps(s);
    case PeekReturn =>
  }

  lemma {:induction false} AcceptedGrows<T>(s: Trace<T>, actions: seq<Action<T>>)
    requires s.q.WellFormed()
    ensures |s.accepted| <= |Run(s, actions).accepted|
    decreases actions
  {
    if actions != [] { AcceptedGrows(Step(s, actions[0]), actions[1..]); }
  }

  lemma {:induction false} RunKeeps<T>(s: Trace<T>, actions: seq<Action<T>>)
    requires Inv(s)
    requires Divides(s.q.capacity) || |Run(s, actions).accepted| < WORD
    ensures Inv(Run(s, actions))
    decreases actions
  {
    if actions != [] {
      AcceptedGrows(s, actions);
      StepKeeps(s, actions[0]);
      RunKeeps(Step(s, actions[0]), actions[1..]);
    }
  }

  /** Every interleaving of any length refines the bounded FIFO if the capacity divides 2^32;
      for any other capacity every interleaving with fewer than 2^32 pushes does. */
  lemma {:induction false} EveryRunIsFifo<T>(slots: seq<T>, actions: seq<Action<T>>)
    requires |slots| < WORD
    requires Divides(|slots|) || |Run(Start(slots), actions).accepted| < WORD
    ensures Fifo(Run(Start(slots), actions))
  {
    RunKeeps(Start(slots), actions);
    FullMeansFull(Run(Start(slots), actions));
  }

  /** The consumer never reads the slot that the producer is about to write or has written but not counted. */
  lemma {:induction false} ReadAndWriteSlotsDiffer<T>(slots: seq<T>, actions: seq<Action<T>>)
    requires |slots| < WORD
    requires Divides(|slots|) || |Run(Start(slots), actions).accepted| < WORD
    ensures var q := Run(Start(slots), actions).q;
            !q.producer.PushIdle? && q.consumer.PopChecked? ==>
              q.capacity != 0 && q.pushed % q.capacity != q.popped % q.capacity
  {
    var s := Run(Start(slots), actions);
    RunKeeps(Start(slots), actions);
    if !s.q.producer.PushIdle? && s.q.consumer.PopChecked? {
      SlotOf(|s.accepted|, s.q.capacity);
      SlotOf(|s.delivered|, s.q.capacity);
      SlotsAreDistinct(|s.delivered|, |s.accepted|, s.q.capacity);
    }
  }

  // Calls take effect whatever the other thread is doing

  /** A push passes its check exactly if there is room, and a pop or a peek exactly if there is a value: in every
      reachable state, with the other thread anywhere in its call. */
  lemma {:induction false} ChecksPassIff<T>(s: Trace<T>, value: T)
    requires Inv(s)
    ensures s.q.producer.PushIdle? ==>
              Step(s, PushCheck(value)) ==
              if |s.accepted| - |s.delivered| < s.q.capacity then s.(q := s.q.(producer := PushChecked(value))) else s
    ensures s.q.consumer.PopIdle? ==>
              Step(s, PopCheck) ==
              if |s.delivered| < |s.accepted| then s.(q := s.q.(consumer := PopChecked)) else s
  {
    FullMeansFull(s);
  }

  predicate OfConsumer<T>(a: Action<T>) {
    a.PopCheck? || a.PopRead? || a.PopCount? || a.PeekReturn?
  }

  /** The consumer changes nothing that the producer has done, and the other way round. */
  lemma {:induction false} OthersLeaveAlone<T>(s: Trace<T>, actions: seq<Action<T>>)
    requires s.q.WellFormed()
    ensures (forall a | a in actions :: OfConsumer(a)) ==>
              Run(s, actions).q.producer == s.q.producer && Run(s, actions).accepted == s.accepted
    ensures (forall a | a in actions :: !OfConsumer(a)) ==>
              Run(s, actions).q.consumer == s.q.consumer && Run(s, actions).delivered == s.delivered
    decreases actions
  {
    if actions != [] {
      assert actions[0] in actions;
      OthersLeaveAlone(Step(s, actions[0]), actions[1..]);
    }
  }

  lemma {:induction false} RunOne<T>(s: Trace<T>, a: Action<T>)
    requires s.q.WellFormed()
    ensures Run(s, [a]) == Step(s, a)
  {
    hide Step;
    assert [a][1..] == [];
    assert Run(s, [a]) == Run(Step(s, a), []);
  }

  lemma {:induction false} RunOneMore<T>(s: Trace<T>, before: seq<Action<T>>, a: Action<T>)
    requires s.q.WellFormed()
    ensures Run(s, before + [a]) == Step(Run(s, before), a)
  {
    hide Run, Step;
    RunConcat(s, before, [a]);
    RunOne(Run(s, before), a);
  }

  /** A push that finds room is wait-free: its three accesses append the value, whatever the consumer does between
      them. */
  lemma {:induction false} PushIsWaitFree<T>(s: Trace<T>, value: T, before: seq<Action<T>>, between: seq<Action<T>>)
    requires Inv(s) && s.q.producer.PushIdle? && |s.accepted| - |s.delivered| < s.q.capacity
    requires forall a | a in before + between :: OfConsumer(a)
    ensures var t := Run(s, [PushCheck(value)] + before + [PushWrite] + between + [PushCount]);
            t.accepted == s.accepted + [value] && t.q.producer == PushIdle
  {
    assert s.q.WellFormed() && s.q.capacity != 0;
    hide Inv, Run;
    assert forall a | a in before :: a in before + between;
    assert forall a | a in between :: a in before + between;
    var b := [PushCheck(value)] + before;
    var c := b + [PushWrite] + between;
    RunOne(s, PushCheck(value));
    ChecksPassIff(s, value);
    RunConcat(s, [PushCheck(value)], before);
    OthersLeaveAlone(Run(s, [PushCheck(value)]), before);
    RunOneMore(s, b, PushWrite);
    RunConcat(s, b + [PushWrite], between);
    OthersLeaveAlone(Run(s, b + [PushWrite]), between);
    RunOneMore(s, c, PushCount);
  }

  /** So is a pop that finds a value: it delivers the oldest one, whatever the producer does between its accesses. A
      peek holds that value and leaves it where it is. */
  lemma {:induction false} PopIsWaitFree<T>(s: Trace<T>, before: seq<Action<T>>, between: seq<Action<T>>)
    requires Inv(s) && s.q.consumer.PopIdle? && |s.delivered| < |s.accepted|
    requires forall a | a in before + between :: !OfConsumer(a)
    requires var all := [PopCheck] + before + [PopRead] + between + [PopCount];
             Divides(s.q.capacity) || |Run(s, all).accepted| < WORD
    ensures var t := Run(s, [PopCheck] + before + [PopRead] + between + [PopCount]);
            t.delivered == s.delivered + [s.accepted[|s.delivered|]] && t.q.consumer == PopIdle
    ensures var h := Run(s, [PopCheck] + before + [PopRead] + between);
            h.q.consumer == PopHolds(s.accepted[|s.delivered|])
            && Step(h, PeekReturn) == h.(q := h.q.(consumer := PopIdle))
  {
    assert s.q.WellFormed() && s.q.capacity != 0;
    hide Inv, Run;
    assert forall a | a in before :: a in before + between;
    assert forall a | a in between :: a in before + between;
    var b := [PopCheck] + before;
    var c := b + [PopRead] + between;
    RunOne(s, PopCheck);
    ChecksPassIff(s, s.accepted[0]);
    RunConcat(s, [PopCheck], before);
    OthersLeaveAlone(Run(s, [PopCheck]), before);
    RunOneMore(s, b, PopRead);
    RunConcat(s, b + [PopRead], between);
    OthersLeaveAlone(Run(s, b + [PopRead]), between);
    RunOneMore(s, c, PopCount);
    OldestIsHeld(s, b, between);
  }

  /** What a pop holds in the end is the oldest value of the start. */
  lemma {:induction false} OldestIsHeld<T>(s: Trace<T>, b: seq<Action<T>>, between: seq<Action<T>>)
    requires Inv(s) && |s.delivered| < |s.accepted|
    requires var t := Run(s, b + [PopRead] + between);
             t.q.consumer.PopHolds? && t.delivered == s.delivered
    requires Divides(s.q.capacity) || |Run(s, b + [PopRead] + between + [PopCount]).accepted| < WORD
    ensures Run(s, b + [PopRead] + between).q.consumer.value == s.accepted[|s.delivered|]
  {
    hide Run, Step;
    var c := b + [PopRead] + between;
    RunConcat(s, c, [PopCount]);
    AcceptedGrows(Run(s, c), [PopCount]);
    RunKeeps(s, c);
    AcceptedStays(s, c);
  }

  lemma {:induction false} AcceptedStays<T>(s: Trace<T>, actions: seq<Action<T>>)
    requires s.q.WellFormed()
    ensures s.accepted <= Run(s, actions).accepted
    decreases actions
  {
    if actions != [] { AcceptedStays(Step(s, actions[0]), actions[1..]); }
  }

  // Uninterrupted calls

  function PushCall<T>(value: T): seq<Action<T>> {
    [PushCheck(value), PushWrite, PushCount]
  }

  function PopCall<T>(): seq<Action<T>> {
    [PopCheck, PopRead, PopCount]
  }

  predicate Idle<T>(s: Trace<T>) {
    s.q.producer.PushIdle? && s.q.consumer.PopIdle?
  }

  lemma {:induction false} RunConcat<T>(s: Trace<T>, a: seq<Action<T>>, b: seq<Action<T>>)
    requires s.q.WellFormed()
    ensures Run(s, a + b) == Run(Run(s, a), b)
    decreases a
  {
    if a == [] {
      assert a + b == b;
    } else {
      assert (a + b)[1..] == a[1..] + b;
      RunConcat(Step(s, a[0]), a[1..], b);
    }
  }

  lemma {:induction false} RunThree<T>(s: Trace<T>, a: Action<T>, b: Action<T>, c: Action<T>)
    requires s.q.WellFormed()
    ensures Run(s, [a, b, c]) == Step(Step(Step(s, a), b), c)
  {
    hide Step;
    var t := Step(s, a);
    var u := Step(t, b);
    assert [a, b, c][1..] == [b, c] && [b, c][1..] == [c] && [c][1..] == [];
    assert Run(u, [c]) == Run(Step(u, c), []);
    assert Run(t, [b, c]) == Run(u, [c]);
  }

  lemma {:induction false} PushCallPushes<T>(s: Trace<T>, value: T)
    requires s.q.WellFormed() && Idle(s)
    ensures Run(s, PushCall(value)) ==
            if s.q.capacity == 0 || s.q.IsFull() then s
            else s.(q := s.q.(slots := s.q.slots[s.q.pushed % s.q.capacity := value],
                              pushed := (s.q.pushed + 1) % WORD),
                    accepted := s.accepted + [value])
  {
    RunThree(s, PushCheck(value), PushWrite, PushCount);
  }

  lemma {:induction false} PushCallKeeps<T>(s: Trace<T>, value: T)
    requires Inv(s) && Idle(s)
    ensures Divides(s.q.capacity) || |s.accepted| < WORD ==> Inv(Run(s, PushCall(value)))
  {
    if Divides(s.q.capacity) || |s.accepted| < WORD {
      RunThree(s, PushCheck(value), PushWrite, PushCount);
      StepKeeps(s, PushCheck(value));
      var t := Step(s, PushCheck(value));
      StepKeeps(t, PushWrite);
      PushCountKeeps(Step(t, PushWrite));
    }
  }

  lemma {:induction false} PopCallPops<T>(s: Trace<T>)
    requires s.q.WellFormed() && Idle(s)
    ensures Run(s, PopCall()) ==
            if s.q.capacity == 0 || s.q.IsEmpty() then s
            else s.(q := s.q.(popped := (s.q.popped + 1) % WORD),
                    delivered := s.delivered + [s.q.slots[s.q.popped % s.q.capacity]])
  {
    RunThree(s, PopCheck, PopRead, PopCount);
  }

  // Why the capacity has to divide 2^32

  /** `n` values go in and out again, one at a time. */
  function Cycles(n: nat): seq<Action<int>> {
    if n == 0 then [] else Cycles(n - 1) + (PushCall(0) + PopCall())
  }

  function Pushes(k: nat): seq<Action<int>> {
    if k == 0 then [] else Pushes(k - 1) + PushCall(0)
  }

  lemma {:induction false} SmallModulo(n: nat, m: nat)
    requires n < m
    ensures n % m == n
  {
  }

  /** Both counters stand at `n`, and the queue is empty and idle. */
  ghost predicate EmptyAt(s: Trace<int>, capacity: nat, n: nat) {
    && s.q.WellFormed() && s.q.capacity == capacity && Idle(s)
    && s.q.pushed == s.q.popped == n == |s.accepted| == |s.delivered|
  }

  lemma {:induction false} OneCycle(s: Trace<int>, capacity: nat, n: nat)
    requires EmptyAt(s, capacity, n) && 0 < capacity && n + 1 < WORD
    ensures EmptyAt(Run(s, PushCall(0) + PopCall()), capacity, n + 1)
  {
    hide Run, Step, PushCall, PopCall;
    RunConcat(s, PushCall(0), PopCall());
    WrappedCounts(n, n, capacity);
    SmallModulo(n, WORD);
    SmallModulo(n + 1, WORD);
    assert !s.q.IsFull();
    PushCallPushes(s, 0);
    var t := Run(s, PushCall(0));
    assert t.q.pushed == n + 1 && t.q.popped == n && Idle(t);
    assert |t.accepted| == n + 1 && |t.delivered| == n;
    PopCallPops(t);
  }

  lemma {:induction false} CyclesReach(slots: seq<int>, n: nat)
    requires 0 < |slots| < WORD && n < WORD
    ensures EmptyAt(Run(Start(slots), Cycles(n)), |slots|, n)
  {
    if n != 0 {
      hide Run, Step, PushCall, PopCall, EmptyAt;
      CyclesReach(slots, n - 1);
      RunConcat(Start(slots), Cycles(n - 1), PushCall(0) + PopCall());
      OneCycle(Run(Start(slots), Cycles(n - 1)), |slots|, n - 1);
    }
  }

  /** After `k` more pushes of 0 the queue holds them and is not full. */
  ghost predicate HoldsZeros(t: Trace<int>, capacity: nat, n: nat, k: nat) {
    && t.q.WellFormed() && t.q.capacity == capacity && Idle(t)
    && n < WORD && t.q.pushed == (n + k) % WORD && t.q.popped == n
    && |t.delivered| == n && |t.accepted| == n + k
    && forall i | n <= i < n + k :: t.accepted[i] == 0
  }

  lemma {:induction false} OnePush(t: Trace<int>, capacity: nat, n: nat, k: nat)
    requires HoldsZeros(t, capacity, n, k) && k < capacity
    ensures HoldsZeros(Run(t, PushCall(0)), capacity, n, k + 1)
  {
    hide Run, Step, PushCall;
    Increment(n + k);
    WrappedCounts(n + k, n, capacity);
    SmallModulo(n, WORD);
    assert !t.q.IsFull();
    PushCallPushes(t, 0);
  }

  lemma {:induction false} PushesReach(s: Trace<int>, capacity: nat, n: nat, k: nat)
    requires HoldsZeros(s, capacity, n, 0) && k <= capacity
    ensures HoldsZeros(Run(s, Pushes(k)), capacity, n, k)
  {
    if k != 0 {
      hide Run, Step, PushCall, HoldsZeros;
      PushesReach(s, capacity, n, k - 1);
      RunConcat(s, Pushes(k - 1), PushCall(0));
      OnePush(Run(s, Pushes(k - 1)), capacity, n, k - 1);
    }
  }

  /** The run that fails: with `r` = 2^32 mod capacity, the value with number 2^32 goes into the slot
      of the value with number 2^32 - r, which is still in the queue. */
  function FailingRun(capacity: nat): seq<Action<int>>
    requires 0 < capacity
  {
    var r := WORD % capacity;
    Cycles(WORD - r) + (Pushes(r) + (PushCall(1) + PopCall()))
  }

  lemma {:induction false} MultipleOf(n: nat, d: nat)
    requires 0 < d
    ensures (n - n % d) % d == 0 && n % d <= n
  {
    DivMod(n, d);
    MultipleBound(n / d, d);
    if n / d == 0 { MultipleBound(0, d); }
    DivisionIsUnique(n - n % d, d, n / d, 0);
  }

  /** The push with number 2^32 overwrites the oldest value in the queue, and the pop returns it. */
  lemma {:induction false} LastPushFails(t: Trace<int>, capacity: nat, n: nat, r: nat)
    requires HoldsZeros(t, capacity, n, r) && n + r == WORD && 0 < r < capacity && n % capacity == 0
    ensures !Fifo(Run(t, PushCall(1) + PopCall()))
  {
    hide Run, Step, PushCall, PopCall;
    assert !t.q.IsFull() && t.q.pushed == 0;
    PushCallPushes(t, 1);
    var u := Run(t, PushCall(1));
    assert u.q.slots[n % capacity] == 1 && u.accepted[n] == 0 && !u.q.IsEmpty();
    RunConcat(t, PushCall(1), PopCall());
    PopCallPops(u);
    var v := Run(u, PopCall());
    assert v.delivered[n] == 1 && v.accepted[n] == 0;
  }

  lemma {:induction false} FailingRunFails(slots: seq<int>)
    requires 0 < |slots| < WORD && WORD % |slots| != 0
    ensures !Fifo(Run(Start(slots), FailingRun(|slots|)))
  {
    hide Run, Step, PushCall, PopCall, HoldsZeros, Fifo, Cycles, Pushes;
    var capacity := |slots|;
    var r := WORD % capacity;
    var n := WORD - r;
    MultipleOf(WORD, capacity);
    CyclesReach(slots, n);
    var s := Run(Start(slots), Cycles(n));
    RunConcat(Start(slots), Cycles(n), Pushes(r) + (PushCall(1) + PopCall()));
    EmptyHoldsZeros(s, capacity, n);
    PushesReach(s, capacity, n, r);
    RunConcat(s, Pushes(r), PushCall(1) + PopCall());
    LastPushFails(Run(s, Pushes(r)), capacity, n, r);
  }

  lemma {:induction false} EmptyHoldsZeros(s: Trace<int>, capacity: nat, n: nat)
    requires EmptyAt(s, capacity, n)
    ensures HoldsZeros(s, capacity, n, 0)
  {
    SmallModulo(n, WORD);
  }

  ghost predicate AlwaysFifo(capacity: nat)
    requires capacity < WORD
  {
    forall slots: seq<int>, actions: seq<Action<int>> | |slots| == capacity :: Fifo(Run(Start(slots), actions))
  }

  /** The queue is a FIFO over runs of every length exactly for the capacities that divide 2^32. */
  lemma {:induction false} AlwaysFifoIffDivides(capacity: nat)
    requires 0 < capacity < WORD
    ensures AlwaysFifo(capacity) <==> 0x1_0000_0000 % capacity == 0
  {
    if WORD % capacity == 0 {
      forall slots: seq<int>, actions: seq<Action<int>> | |slots| == capacity
        ensures Fifo(Run(Start(slots), actions))
      {
        EveryRunIsFifo(slots, actions);
      }
    } else {
      var slots := seq(capacity, _ => 0);
      FailingRunFails(slots);
    }
  }

  // The class

  /** The queue as its callers see it when no call is under way. */
  class FixedSizeLockFreeQueue<T(0)> {
    var pushedCount: nat
    var poppedCount: nat
    var capacity: nat
    var data: array<T>

    ghost var accepted: seq<T>
    ghost var delivered: seq<T>

    ghost predicate WellFormed()
      reads this, data
    {
      pushedCount < WORD && poppedCount < WORD && capacity < WORD && data.Length == capacity
    }

    ghost function View(): (s: Trace<T>)
      requires WellFormed()
      reads this, data
      ensures s.q.WellFormed()
    {
      Trace(Queue(pushedCount, poppedCount, capacity, data[..], PushIdle, PopIdle), accepted, delivered)
    }

    ghost predicate Valid()
      reads this, data
    {
      WellFormed() && Inv(View())
    }

    /** The values in the queue, oldest first. */
    ghost function Contents(): seq<T>
      reads this
    {
      if |delivered| <= |accepted| then accepted[|delivered|..] else []
    }

    /** Every value is in the slot where the counters look for it, and will be after one more push. */
    ghost predicate InStep()
      reads this, data
    {
      Valid() && (Divides(capacity) || |accepted| < WORD)
    }

    constructor (capacity: nat)
      requires capacity < WORD
      ensures Valid() && fresh(data) && this.capacity == capacity && Contents() == []
      ensures accepted == [] && delivered == []
    {
      pushedCount, poppedCount, this.capacity := 0, 0, capacity;
      data := new T[capacity];
      accepted, delivered := [], [];
    }

    predicate IsFull()
      reads this
    {
      pushedCount == (poppedCount + capacity) % WORD
    }

    predicate IsEmpty()
      reads this
    {
      pushedCount == poppedCount
    }

    /** Size() is the number of values in the queue, which lies in [0, capacity]. */
    function Size(): (n: nat)
      requires WellFormed()
      reads this, data
      ensures Valid() ==> n == |Contents()| <= capacity
    {
      (pushedCount - poppedCount) % WORD
    }

    /** PushBack is the three actions of the protocol; while the slots are in step it appends unless full. */
    method PushBack(value: T) returns (ok: bool)
      requires WellFormed()
      modifies this`pushedCount, this`accepted, data
      ensures WellFormed() && View() == Run(old(View()), PushCall(value))
      ensures old(Valid()) ==> Contents() == old(Contents()) + if ok then [value] else []
      ensures old(Valid()) ==> (ok <==> old(|Contents()|) < capacity)
      ensures old(InStep()) ==> Valid()
    {
      ghost var before := View();
      PushCallPushes(before, value);
      if Inv(before) {
        FullMeansFull(before);
        PushCallKeeps(before, value);
      }
      hide Run, Step, Inv;
      if capacity == 0 {
        return false;
      }
      if IsFull() {
        return false;
      }
      data[pushedCount % capacity] := value;
      pushedCount := (pushedCount + 1) % WORD;
      accepted := accepted + [value];
      return true;
    }

    /** PeekFront returns the oldest value. */
    method PeekFront() returns (ok: bool, value: T)
      requires WellFormed()
      ensures ok <==> capacity != 0 && !IsEmpty()
      ensures ok ==> value == data[poppedCount % capacity]
      ensures InStep() ==> (ok <==> Contents() != [])
      ensures InStep() && ok ==> value == Contents()[0]
    {
      if Inv(View()) {
        FullMeansFull(View());
      }
      value := *;
      if capacity == 0 {
        return false, value;
      }
      if IsEmpty() {
        return false, value;
      }
      if InStep() {
        SlotOf(|delivered|, capacity);
        assert data[..][|delivered| % capacity] == accepted[|delivered|];
      }
      return true, data[poppedCount % capacity];
    }

    lemma {:induction false} PopCallKeeps()
      requires InStep()
      ensures Inv(Run(View(), PopCall()))
      ensures |delivered| <= |accepted| && (IsEmpty() <==> |accepted| == |delivered|)
    {
      hide Run, Step, Divides;
      PopCallPops(View());
      FullMeansFull(View());
      RunKeeps(View(), PopCall());
    }

    /** PopFront returns the oldest value and removes it. */
    method PopFront() returns (ok: bool, value: T)
      requires WellFormed()
      modifies this`poppedCount, this`delivered
      ensures WellFormed() && View() == Run(old(View()), PopCall())
      ensures old(InStep()) ==> InStep() && (ok <==> old(Contents()) != [])
      ensures old(InStep()) && ok ==> value == old(Contents())[0] && Contents() == old(Contents())[1..]
      ensures !ok ==> Contents() == old(Contents())
    {
      ghost var before := View();
      hide Run, Step, Inv, Divides;
      PopCallPops(before);
      if InStep() {
        PopCallKeeps();
      }
      ok, value := PeekFront();
      if ok {
        poppedCount := (poppedCount + 1) % WORD;
        delivered := delivered + [value];
      }
    }

    /** ClearAndResizeUnsafe empties the queue whatever its state was. */
    method ClearAndResizeUnsafe(newCapacity: nat)
      requires newCapacity < WORD
      modifies this
      ensures Valid() && fresh(data) && capacity == newCapacity && Contents() == []
    {
      capacity := newCapacity;
      data := new T[newCapacity];
      pushedCount, poppedCount := 0, 0;
      accepted, delivered := [], [];
    }
  }
}
