/** The lock-free single-producer/single-consumer key rings.  `push` and `pop` are cut into
    their atomic loads, slot accesses and stores; a run is any interleaving of the two.
    The ring is generic in its element and its capacity, so one proof covers both the
    character ring (1024 slots) and the raw key-event ring (256 slots). */
module Ring {
  import opened Arith
  import opened Bytes

  /** Where the producer is inside `push`. */
  datatype Producer<T> =
    | PushIdle
    | WriteLoaded(c: T, w: nat)   // has loaded `write`
    | Claimed(c: T, w: nat)       // saw room: slot w may be half written
    | SlotWritten(c: T, w: nat)   // slot w holds c, `write` not yet stored

  /** Where the consumer is inside `pop`. */
  datatype Consumer<T> =
    | PopIdle
    | ReadLoaded(r: nat)          // has loaded `read`
    | Claiming(r: nat)            // saw an element: slot r may be half read
    | SlotRead(r: nat, v: Option<T>)

  /** Shared memory and the two control points. */
  datatype State<T> = State(
    buffer: seq<Option<T>>, read: nat, write: nat, producer: Producer<T>, consumer: Consumer<T>)

  datatype Action<T> =
    | PushLoadWrite(c: T) | PushLoadRead | PushSlot | PushStore
    | PopLoadRead | PopLoadWrite | PopSlot | PopStore

  function Init<T>(n: nat): State<T> {
    State(seq(n, _ => None), 0, 0, PushIdle, PopIdle)
  }

  predicate Enabled<T>(s: State<T>, a: Action<T>) {
    match a
    case PushLoadWrite(_) => s.producer.PushIdle?
    case PushLoadRead => s.producer.WriteLoaded?
    case PushSlot => s.producer.Claimed? && s.producer.w < |s.buffer|
    case PushStore => s.producer.SlotWritten?
    case PopLoadRead => s.consumer.PopIdle?
    case PopLoadWrite => s.consumer.ReadLoaded?
    case PopSlot => s.consumer.Claiming? && s.consumer.r < |s.buffer|
    case PopStore => s.consumer.SlotRead?
  }

  function Step<T>(n: nat, s: State<T>, a: Action<T>): State<T>
    requires n > 0 && Enabled(s, a)
  {
    match a
    case PushLoadWrite(c) => s.(producer := WriteLoaded(c, s.write))
    case PushLoadRead =>
      var p := s.producer;
      if (p.w + 1) % n != s.read
      then s.(producer := Claimed(p.c, p.w))
      else s.(producer := PushIdle)
    case PushSlot =>
      var p := s.producer;
      s.(buffer := s.buffer[p.w := Some(p.c)], producer := SlotWritten(p.c, p.w))
    case PushStore => s.(write := (s.producer.w + 1) % n, producer := PushIdle)
    case PopLoadRead => s.(consumer := ReadLoaded(s.read))
    case PopLoadWrite =>
      if s.consumer.r == s.write
      then s.(consumer := PopIdle)
      else s.(consumer := Claiming(s.consumer.r))
    case PopSlot =>
      s.(consumer := SlotRead(s.consumer.r, s.buffer[s.consumer.r]))
    case PopStore => s.(read := (s.consumer.r + 1) % n, consumer := PopIdle)
  }

  /** One interleaving: it starts with the empty ring and moves by enabled steps of either side. */
  ghost predicate IsRun<T(!new)>(n: nat, run: seq<State<T>>, acts: seq<Action<T>>) {
    && n >= 2
    && |run| == |acts| + 1
    && run[0] == Init(n)
    && forall i :: 0 <= i < |acts| ==> Enabled(run[i], acts[i]) && run[i + 1] == Step(n, run[i], acts[i])
  }

  // What an onlooker sees: calls begin and calls return

  datatype Call<T> = Accepted(c: T) | Dropped(c: T) | Popped(v: Option<T>) | FoundEmpty

  /** The calls that return between two states.  A push that left `write` alone dropped its element;
      a pop that has read no slot returns nothing. */
  function Returns<T>(s: State<T>, t: State<T>): seq<Call<T>> {
    (if !s.producer.PushIdle? && t.producer.PushIdle?
     then [if t.write != s.write then Accepted(s.producer.c) else Dropped(s.producer.c)] else [])
    + (if !s.consumer.PopIdle? && t.consumer.PopIdle?
       then [if s.consumer.SlotRead? then Popped(s.consumer.v) else FoundEmpty] else [])
  }

  /** The calls that have returned by state i, in the order they returned. */
  function Log<T>(run: seq<State<T>>, i: nat): seq<Call<T>>
    requires i < |run|
  {
    if i == 0 then [] else Log(run, i - 1) + Returns(run[i - 1], run[i])
  }

  /** The elements of the pushes begun, and the number of pops begun. */
  function PushesBegun<T>(acts: seq<Action<T>>): seq<T> {
    if acts == [] then []
    else
      var a := acts[|acts| - 1];
      PushesBegun(acts[..|acts| - 1]) + if a.PushLoadWrite? then [a.c] else []
  }

  function PopsBegun<T>(acts: seq<Action<T>>): nat {
    if acts == [] then 0
    else PopsBegun(acts[..|acts| - 1]) + if acts[|acts| - 1].PopLoadRead? then 1 else 0
  }

  function PushesReturned<T>(log: seq<Call<T>>): seq<T> {
    if log == [] then []
    else
      var e := log[|log| - 1];
      PushesReturned(log[..|log| - 1]) + if e.Accepted? || e.Dropped? then [e.c] else []
  }

  function PopsReturned<T>(log: seq<Call<T>>): nat {
    if log == [] then 0
    else
      var e := log[|log| - 1];
      PopsReturned(log[..|log| - 1]) + if e.Popped? || e.FoundEmpty? then 1 else 0
  }

  function InFlight<T>(p: Producer<T>): seq<T> {
    if p.PushIdle? then [] else [p.c]
  }

  // The sequential queue the ring stands for

  /** The contents of a queue after the calls of `log`. */
  function Queue<T>(log: seq<Call<T>>): seq<T> {
    if log == [] then []
    else
      var q := Queue(log[..|log| - 1]);
      match log[|log| - 1]
      case Accepted(c) => q + [c]
      case Popped(_) => if q == [] then [] else q[1..]
      case _ => q
  }

  /** The answer a FIFO queue of at most n - 1 elements gives when it holds q. */
  predicate Right<T(==)>(n: nat, q: seq<T>, e: Call<T>) {
    match e
    case Accepted(_) => |q| < n - 1
    case Dropped(_) => |q| == n - 1
    case Popped(v) => q != [] && v == Some(q[0])
    case FoundEmpty => q == []
  }

  /** Every call of `log` got the answer of such a queue, one call after the other. */
  predicate Sequential<T(==)>(n: nat, log: seq<Call<T>>) {
    forall i :: 0 <= i < |log| ==> Right(n, Queue(log[..i]), log[i])
  }

  function AcceptedOf<T>(log: seq<Call<T>>): seq<T> {
    if log == [] then []
    else
      var e := log[|log| - 1];
      AcceptedOf(log[..|log| - 1]) + if e.Accepted? then [e.c] else []
  }

  function PoppedOf<T>(log: seq<Call<T>>): seq<Option<T>> {
    if log == [] then []
    else
      var e := log[|log| - 1];
      PoppedOf(log[..|log| - 1]) + if e.Popped? then [e.v] else []
  }

  // What every step keeps

  /** The slots from `read` on hold q, in order, and `write` is the slot after them. */
  ghost predicate Holds<T>(n: nat, buffer: seq<Option<T>>, read: nat, write: nat, q: seq<T>) {
    && read < n == |buffer|
    && |q| < n
    && write == (read + |q|) % n
    && forall k {:trigger q[k]} :: 0 <= k < |q| ==> buffer[(read + k) % n] == Some(q[k])
  }

  /** The ring holds the queue q, and each side knows what it has seen of it. */
  ghost predicate Inv<T>(n: nat, s: State<T>, q: seq<T>) {
    && n >= 2
    && Holds(n, s.buffer, s.read, s.write, q)
    && ProducerInv(n, s, q)
    && ConsumerInv(s, q)
  }

  ghost predicate ProducerInv<T>(n: nat, s: State<T>, q: seq<T>) {
    match s.producer
    case PushIdle => true
    case WriteLoaded(_, w) => w == s.write
    case Claimed(_, w) => w == s.write && |q| <= n - 2
    case SlotWritten(c, w) => w == s.write && |q| <= n - 2 && w < |s.buffer| && s.buffer[w] == Some(c)
  }

  ghost predicate ConsumerInv<T>(s: State<T>, q: seq<T>) {
    match s.consumer
    case PopIdle => true
    case ReadLoaded(r) => r == s.read
    case Claiming(r) => r == s.read && q != []
    case SlotRead(r, v) => r == s.read && q != [] && v == Some(q[0])
  }

  /** Every call begun has returned exactly once or is the one in flight, and every answer is right. */
  ghost predicate Accounted<T>(n: nat, s: State<T>, begun: seq<T>, pops: nat, log: seq<Call<T>>) {
    && Sequential(n, log)
    && begun == PushesReturned(log) + InFlight(s.producer)
    && pops == PopsReturned(log) + if s.consumer.PopIdle? then 0 else 1
  }

  // Arithmetic modulo the capacity

  lemma {:induction false} Turn(x: nat, n: nat)
    requires x < 2 * n
    ensures x % n == if x < n then x else x - n
  {
    if x < n { DivModUnique(0, x, n); } else { DivModUnique(1, x - n, n); }
  }

  /** The slot after slot k, counted from a. */
  lemma Advance(a: nat, k: nat, n: nat)
    requires a < n && k < n
    ensures ((a + k) % n + 1) % n == (a + k + 1) % n == ((a + 1) % n + k) % n
  {
    Turn(a + k, n);
    Turn((a + k) % n + 1, n);
    Turn(a + 1, n);
    Turn((a + 1) % n + k, n);
    if a + k + 1 < 2 * n { Turn(a + k + 1, n); }
  }

  /** Slots less than n apart are different slots. */
  lemma Apart(a: nat, j: nat, k: nat, n: nat)
    requires a < n && j < n && k < n
    ensures (a + j) % n == (a + k) % n <==> j == k
  {
    Turn(a + j, n);
    Turn(a + k, n);
  }

  /** At the load of `read`, the producer finds the ring full exactly when n - 1 slots are occupied. */
  lemma FullTest<T>(n: nat, s: State<T>, q: seq<T>)
    requires Inv(n, s, q)
    ensures (s.write + 1) % n == s.read <==> |q| == n - 1
  {
    Turn(s.read + |q|, n);
    Turn(s.write + 1, n);
  }

  lemma EmptyTest<T>(n: nat, s: State<T>, q: seq<T>)
    requires Inv(n, s, q)
    ensures s.read == s.write <==> q == []
  {
    Turn(s.read + |q|, n);
  }

  /** The slot the producer owns is no occupied slot. */
  lemma FreshSlot<T>(n: nat, s: State<T>, q: seq<T>, k: nat)
    requires Inv(n, s, q) && k < |q|
    ensures (s.read + k) % n != s.write
  {
    Apart(s.read, k, |q|, n);
  }

  lemma Bounds<T>(n: nat, s: State<T>, q: seq<T>)
    requires Inv(n, s, q)
    ensures s.read < n && s.write < n && |s.buffer| == n && |q| < n
  {
    Turn(s.read + |q|, n);
  }

  /** Storing `write` after the slot is filled puts c at the end of the queue. */
  lemma Pushed<T>(n: nat, b: seq<Option<T>>, read: nat, write: nat, q: seq<T>, c: T)
    requires Holds(n, b, read, write, q) && |q| <= n - 2 && write < n && b[write] == Some(c)
    ensures Holds(n, b, read, (write + 1) % n, q + [c])
    ensures (write + 1) % n != write
  {
    Advance(read, |q|, n);
    Turn(write + 1, n);
  }

  /** Storing `read` takes the head off the queue. */
  lemma Taken<T>(n: nat, b: seq<Option<T>>, read: nat, write: nat, q: seq<T>)
    requires Holds(n, b, read, write, q) && q != []
    ensures Holds(n, b, (read + 1) % n, write, q[1..])
    ensures read < |b| && b[read] == Some(q[0])
  {
    var r := (read + 1) % n;
    Turn(read, n);
    assert read == (read + 0) % n;
    forall k {:trigger q[1..][k]} | 0 <= k < |q| - 1 ensures b[(r + k) % n] == Some(q[1..][k]) {
      Advance(read, k, n);
      assert q[1..][k] == q[k + 1] && read + (k + 1) == read + k + 1;
    }
    Advance(read, |q| - 1, n);
  }

  /** Writing the slot at `write` leaves the queue alone. */
  lemma Filled<T>(n: nat, b: seq<Option<T>>, read: nat, write: nat, q: seq<T>, c: T)
    requires Holds(n, b, read, write, q) && write < n
    ensures Holds(n, b[write := Some(c)], read, write, q)
  {
    forall k {:trigger q[k]} | 0 <= k < |q| ensures b[write := Some(c)][(read + k) % n] == Some(q[k]) {
      Apart(read, k, |q|, n);
    }
  }

  /** A producer step: its push returns at most once, with the right answer, and is not lost. */
  lemma PushStepKeepsInv<T>(n: nat, s: State<T>, q: seq<T>, a: Action<T>)
    requires Inv(n, s, q) && Enabled(s, a)
    requires a.PushLoadWrite? || a.PushLoadRead? || a.PushSlot? || a.PushStore?
    ensures var t := Step(n, s, a);
            var c := if a.PushLoadWrite? then a.c else s.producer.c;
            || (Returns(s, t) == [] && t.producer != PushIdle && t.producer.c == c && Inv(n, t, q))
            || (Returns(s, t) == [Dropped(c)] && t.producer == PushIdle && |q| == n - 1 && Inv(n, t, q))
            || (Returns(s, t) == [Accepted(c)] && t.producer == PushIdle && |q| < n - 1 && Inv(n, t, q + [c]))
    ensures Step(n, s, a).consumer == s.consumer
  {
    hide Holds;
    var t := Step(n, s, a);
    FullTest(n, s, q);
    Bounds(n, s, q);
    if a.PushSlot? {
      Filled(n, s.buffer, s.read, s.write, q, s.producer.c);
    } else if a.PushStore? {
      Pushed(n, s.buffer, s.read, s.write, q, s.producer.c);
      assert Returns(s, t) == [Accepted(s.producer.c)];
    }
  }

  /** A consumer step: its pop returns at most once, with the right answer, and is not lost. */
  lemma PopStepKeepsInv<T>(n: nat, s: State<T>, q: seq<T>, a: Action<T>)
    requires Inv(n, s, q) && Enabled(s, a)
    requires a.PopLoadRead? || a.PopLoadWrite? || a.PopSlot? || a.PopStore?
    ensures var t := Step(n, s, a);
            || (Returns(s, t) == [] && t.consumer != PopIdle && Inv(n, t, q))
            || (Returns(s, t) == [FoundEmpty] && t.consumer == PopIdle && q == [] && Inv(n, t, q))
            || (q != [] && Returns(s, t) == [Popped(Some(q[0]))] && t.consumer == PopIdle && Inv(n, t, q[1..]))
    ensures Step(n, s, a).producer == s.producer
  {
    hide Holds;
    var t := Step(n, s, a);
    EmptyTest(n, s, q);
    if q != [] { Taken(n, s.buffer, s.read, s.write, q); }
    if a.PopStore? { assert Returns(s, t) == [Popped(Some(q[0]))]; }
  }

  // Whole runs

  /** What one more call does to a log. */
  lemma OneMore<T>(n: nat, log: seq<Call<T>>, e: Call<T>)
    requires Sequential(n, log) && Right(n, Queue(log), e)
    ensures Sequential(n, log + [e])
    ensures var q := Queue(log);
            Queue(log + [e]) == if e.Accepted? then q + [e.c] else if e.Popped? then q[1..] else q
    ensures PushesReturned(log + [e])
            == PushesReturned(log) + if e.Accepted? || e.Dropped? then [e.c] else []
    ensures PopsReturned(log + [e]) == PopsReturned(log) + if e.Popped? || e.FoundEmpty? then 1 else 0
  {
    var l := log + [e];
    assert l[..|log|] == log;
    forall i | 0 <= i < |l| ensures Right(n, Queue(l[..i]), l[i]) {
      assert l[..i] == if i < |log| then log[..i] else log;
    }
  }

  /** One step: the log grows by at most one call, which gets the right answer, and no call is lost. */
  lemma StepAccounts<T>(n: nat, s: State<T>, a: Action<T>, begun: seq<T>, pops: nat, log: seq<Call<T>>)
    requires Inv(n, s, Queue(log)) && Enabled(s, a) && Accounted(n, s, begun, pops, log) && n >= 2
    ensures var t := Step(n, s, a);
            var log' := log + Returns(s, t);
            && Inv(n, t, Queue(log'))
            && Accounted(n, t, begun + (if a.PushLoadWrite? then [a.c] else []),
                         pops + (if a.PopLoadRead? then 1 else 0), log')
  {
    hide Inv, Holds, Sequential, Step, Returns, Queue, PushesReturned, PopsReturned;
    var t, q := Step(n, s, a), Queue(log);
    var r := Returns(s, t);
    if a.PushLoadWrite? || a.PushLoadRead? || a.PushSlot? || a.PushStore? {
      PushStepKeepsInv(n, s, q, a);
    } else {
      PopStepKeepsInv(n, s, q, a);
    }
    if r == [] {
      assert log + r == log;
    } else {
      OneMore(n, log, r[0]);
    }
  }

  lemma {:induction false} RunKeepsInv<T(!new)>(n: nat, run: seq<State<T>>, acts: seq<Action<T>>, i: nat)
    requires IsRun(n, run, acts) && i < |run|
    ensures Inv(n, run[i], Queue(Log(run, i)))
    ensures Accounted(n, run[i], PushesBegun(acts[..i]), PopsBegun(acts[..i]), Log(run, i))
  {
    if i > 0 {
      RunKeepsInv(n, run, acts, i - 1);
      var p, a := run[i - 1], acts[i - 1];
      assert acts[..i][..i - 1] == acts[..i - 1] && run[i] == Step(n, p, a);
      StepAccounts(n, p, a, PushesBegun(acts[..i - 1]), PopsBegun(acts[..i - 1]), Log(run, i - 1));
    }
  }

  /** Every interleaving is linearizable: the calls, in the order they return, get the answers of a FIFO
      queue of n - 1 elements; the pushes that returned are those begun, in order, but for the one in
      flight; every pop begun has returned once or is in flight; and the ring holds that queue. */
  lemma EveryRunIsAQueue<T(!new)>(n: nat, run: seq<State<T>>, acts: seq<Action<T>>, i: nat)
    requires IsRun(n, run, acts) && i < |run|
    ensures Sequential(n, Log(run, i))
    ensures PushesBegun(acts[..i])
            == PushesReturned(Log(run, i)) + if run[i].producer.PushIdle? then [] else [run[i].producer.c]
    ensures PopsBegun(acts[..i]) == PopsReturned(Log(run, i)) + if run[i].consumer.PopIdle? then 0 else 1
    ensures var s := run[i];
            Holds(n, s.buffer, s.read, s.write, Queue(Log(run, i)))
  {
    hide Log, Queue, PushesBegun, PopsBegun, PushesReturned, PopsReturned, Sequential, Holds, Step;
    RunKeepsInv(n, run, acts, i);
  }

  /** Of a sequential log: what pops returned, then what the queue holds, is what was accepted. */
  lemma {:induction false} FirstInFirstOut<T>(n: nat, log: seq<Call<T>>)
    requires Sequential(n, log)
    ensures var a, p, q := AcceptedOf(log), PoppedOf(log), Queue(log);
            && |a| == |p| + |q|
            && (forall k :: 0 <= k < |p| ==> p[k] == Some(a[k]))
            && (forall k :: 0 <= k < |q| ==> q[k] == a[|p| + k])
  {
    if log != [] {
      var m := |log| - 1;
      forall i | 0 <= i < m ensures Right(n, Queue(log[..m][..i]), log[..m][i]) {
        assert log[..m][..i] == log[..i];
      }
      FirstInFirstOut(n, log[..m]);
      assert Right(n, Queue(log[..m]), log[m]);
    }
  }

  /** FIFO under every interleaving: what pops return is a prefix, in order, of the accepted pushes,
      and what has not been popped yet sits in the ring. */
  lemma PoppedIsAPrefixOfAccepted<T(!new)>(n: nat, run: seq<State<T>>, acts: seq<Action<T>>, i: nat)
    requires IsRun(n, run, acts) && i < |run|
    ensures var s, a, p := run[i], AcceptedOf(Log(run, i)), PoppedOf(Log(run, i));
            && |p| <= |a| < |p| + n
            && (forall k :: 0 <= k < |p| ==> p[k] == Some(a[k]))
            && Holds(n, s.buffer, s.read, s.write, a[|p|..])
  {
    hide Log, AcceptedOf, PoppedOf, Queue, PushesBegun, PopsBegun, Sequential, Step;
    RunKeepsInv(n, run, acts, i);
    FirstInFirstOut(n, Log(run, i));
    assert Queue(Log(run, i)) == AcceptedOf(Log(run, i))[|PoppedOf(Log(run, i))|..];
  }

  /** The producer never touches a slot the consumer may be reading. */
  lemma NoSlotIsWrittenWhileRead<T(!new)>(n: nat, run: seq<State<T>>, acts: seq<Action<T>>, i: nat)
    requires IsRun(n, run, acts) && i < |run|
    requires run[i].producer.Claimed? || run[i].producer.SlotWritten?
    requires run[i].consumer.Claiming? || run[i].consumer.SlotRead?
    ensures run[i].producer.w != run[i].consumer.r
  {
    RunKeepsInv(n, run, acts, i);
    FreshSlot(n, run[i], Queue(Log(run, i)), 0);
    Turn(run[i].read, n);
  }

  /** Every slot index is in range: neither side is ever stuck in the middle of a call. */
  lemma EverySideCanMove<T(!new)>(n: nat, run: seq<State<T>>, acts: seq<Action<T>>, i: nat, c: T)
    requires IsRun(n, run, acts) && i < |run|
    ensures exists a: Action<T> :: Enabled(run[i], a) && a in {PushLoadWrite(c), PushLoadRead, PushSlot, PushStore}
    ensures exists a: Action<T> :: Enabled(run[i], a) && a in {PopLoadRead, PopLoadWrite, PopSlot, PopStore}
  {
    RunKeepsInv(n, run, acts, i);
    var s := run[i];
    Turn(s.read + |Queue(Log(run, i))|, n);
    var push := match s.producer
      case PushIdle => PushLoadWrite(c)
      case WriteLoaded(_, _) => PushLoadRead
      case Claimed(_, _) => PushSlot
      case SlotWritten(_, _) => PushStore;
    assert Enabled(s, push);
    var pop := match s.consumer
      case PopIdle => PopLoadRead
      case ReadLoaded(_) => PopLoadWrite
      case Claiming(_) => PopSlot
      case SlotRead(_, _) => PopStore;
    assert Enabled(s, pop);
  }

  /** A push is dropped exactly when the read index it loads shows n - 1 occupied slots. */
  lemma DroppedOnlyWhenFull<T(!new)>(n: nat, run: seq<State<T>>, acts: seq<Action<T>>, i: nat)
    requires IsRun(n, run, acts) && i < |run|
    requires Enabled(run[i], PushLoadRead)
    ensures var s := run[i];
            Returns(s, Step(n, s, PushLoadRead))
            == if |Queue(Log(run, i))| == n - 1 then [Dropped(s.producer.c)] else []
  {
    hide Log, Queue, PushesBegun, PopsBegun, Accounted, Holds;
    RunKeepsInv(n, run, acts, i);
    FullTest(n, run[i], Queue(Log(run, i)));
  }

  /** A pop gives up exactly when the write index it loads shows an empty ring. */
  lemma EmptyPopOnlyWhenEmpty<T(!new)>(n: nat, run: seq<State<T>>, acts: seq<Action<T>>, i: nat)
    requires IsRun(n, run, acts) && i < |run|
    requires Enabled(run[i], PopLoadWrite)
    ensures Returns(run[i], Step(n, run[i], PopLoadWrite)) == if Queue(Log(run, i)) == [] then [FoundEmpty] else []
  {
    hide Log, Queue, PushesBegun, PopsBegun, Accounted, Holds;
    RunKeepsInv(n, run, acts, i);
    EmptyTest(n, run[i], Queue(Log(run, i)));
  }
}
