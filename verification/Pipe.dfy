/** The synchronous in-memory pipe under any number of concurrent reads, writes and
    closes, each taken apart into its steps on the channels, the write lock and the two
    error cells. */
module Pipe {

  type Byte = bv8
  type Thread = nat

  datatype Fault = Nil | EOF | ErrClosedPipe | Other(id: nat)

  datatype Call = Read(m: nat) | Write(b: seq<Byte>) | CloseRead(e: Fault) | CloseWrite(e: Fault)

  /** Where a thread is. m is the length of the buffer of a read; b is what a write was
      called with and n what of it was consumed; locked says whether the write holds the
      write lock. Idle threads are in no call. */
  datatype Pc =
    | Idle
    // read
    | ReadCheck(m: nat)
    | ReadWait(m: nat)
    | ReadCopy(m: nat, bw: seq<Byte>)
    | ReadAck(m: nat, data: seq<Byte>)
    | ReadLoadR(m: nat)
    | ReadLoadW(m: nat, seen: Fault)
    // write
    | WriteCheck(b: seq<Byte>)
    | WriteLock(b: seq<Byte>)
    | WriteSend(b: seq<Byte>, n: nat)
    | WriteAck(b: seq<Byte>, n: nat)
    | WriteLoadW(b: seq<Byte>, n: nat, locked: bool)
    | WriteLoadR(b: seq<Byte>, n: nat, locked: bool, seen: Fault)
    | WriteReturn(b: seq<Byte>, n: nat)
    // close
    | StoreR(e: Fault)
    | StoreW(e: Fault)
    | Once

  /** What a call gave back. */
  datatype Return =
    | ReadDone(m: nat, data: seq<Byte>, err: Fault)
    | WriteDone(b: seq<Byte>, n: nat, err: Fault)
    | CloseDone

  datatype Lock = Free | Held(t: Thread)

  /** The writer and the reader between the two channel operations of a transfer. */
  datatype Pairing = NoPair | Pair(w: Thread, r: Thread)

  /** log has the returns in the order in which they are settled: a read that got bytes
      does nothing after it has acknowledged them but return, so its return is recorded
      with the acknowledgement. No step looks at log or at pair. */
  datatype State = State(pcs: seq<Pc>, lock: Lock, done: bool, rerr: Fault, werr: Fault, log: seq<Return>, pair: Pairing)

  /** One takes a single thread further; Meet is a transfer over the channel of the
      bytes and Ack one over the channel of the counts. */
  datatype Step = Start(t: Thread, call: Call) | One(t: Thread) | Meet(w: Thread, r: Thread) | Ack(w: Thread, r: Thread)

  function Entry(call: Call): Pc {
    match call
    case Read(m) => ReadCheck(m)
    case Write(b) => WriteCheck(b)
    case CloseRead(e) => StoreR(if e == Nil then ErrClosedPipe else e)
    case CloseWrite(e) => StoreW(if e == Nil then EOF else e)
  }

  predicate Enabled(s: State, step: Step) {
    match step
    case Start(t, call) => t < |s.pcs| && s.pcs[t].Idle?
    case One(t) => t < |s.pcs| && CanGo(s, s.pcs[t])
    case Meet(w, r) => w < |s.pcs| && r < |s.pcs| && s.pcs[w].WriteSend? && s.pcs[r].ReadWait?
    case Ack(w, r) => w < |s.pcs| && r < |s.pcs| && s.pcs[w].WriteAck? && s.pcs[r].ReadAck?
  }

  /** The thread can go on by itself: a wait on a channel ends so only once the pipe is
      closed, and the wait for the lock once it is free. */
  predicate CanGo(s: State, pc: Pc) {
    match pc
    case Idle => false
    case ReadWait(_) => s.done
    case ReadAck(_, _) => false
    case WriteLock(_) => s.lock.Free?
    case WriteSend(_, _) => s.done
    case WriteAck(_, _) => false
    case _ => true
  }

  function Prefix(b: seq<Byte>, n: nat): seq<Byte> { if n <= |b| then b[..n] else b }

  function Rest(b: seq<Byte>, n: nat): seq<Byte> { if n <= |b| then b[n..] else [] }

  function Goto(s: State, t: Thread, pc: Pc): State
    requires t < |s.pcs|
  {
    s.(pcs := s.pcs[t := pc])
  }

  function Finish(s: State, t: Thread, ret: Return): State
    requires t < |s.pcs|
  {
    s.(pcs := s.pcs[t := Idle], log := s.log + [ret])
  }

  /** A write returns; the deferred unlock frees the lock it holds. */
  function FinishWrite(s: State, t: Thread, ret: Return, locked: bool): State
    requires t < |s.pcs|
  {
    var n := Finish(s, t, ret);
    if locked then n.(lock := Free) else n
  }

  /** The error that the other side closed with, or that of a closed pipe. */
  function CloseError(own: Fault, other: Fault): Fault {
    if own == Nil && other != Nil then other else ErrClosedPipe
  }

  function GoOne(s: State, t: Thread): State
    requires Enabled(s, One(t))
  {
    match s.pcs[t]
    case ReadCheck(m) => Goto(s, t, if s.done then ReadLoadR(m) else ReadWait(m))
    case ReadWait(m) => Goto(s, t, ReadLoadR(m))
    case ReadCopy(m, bw) => Goto(s, t, ReadAck(m, Prefix(bw, m)))
    case ReadLoadR(m) => Goto(s, t, ReadLoadW(m, s.rerr))
    case ReadLoadW(m, seen) => Finish(s, t, ReadDone(m, [], CloseError(seen, s.werr)))
    case WriteCheck(b) => Goto(s, t, if s.done then WriteLoadW(b, 0, false) else WriteLock(b))
    case WriteLock(b) => Goto(s, t, WriteSend(b, 0)).(lock := Held(t))
    case WriteSend(b, n) => Goto(s, t, WriteLoadW(b, n, true))
    case WriteLoadW(b, n, locked) => Goto(s, t, WriteLoadR(b, n, locked, s.werr))
    case WriteLoadR(b, n, locked, seen) => FinishWrite(s, t, WriteDone(b, n, CloseError(seen, s.rerr)), locked)
    case WriteReturn(b, n) => FinishWrite(s, t, WriteDone(b, n, Nil), true)
    case StoreR(e) => Goto(s, t, Once).(rerr := if s.rerr != Nil then s.rerr else e)
    case StoreW(e) => Goto(s, t, Once).(werr := if s.werr != Nil then s.werr else e)
    case Once => Finish(s, t, CloseDone).(done := true)
    case _ => s
  }

  /** The reader gets the rest of what the writer was called with. */
  function GoMeet(s: State, w: Thread, r: Thread): State
    requires Enabled(s, Meet(w, r))
  {
    var bw := Rest(s.pcs[w].b, s.pcs[w].n);
    s.(pcs := s.pcs[w := WriteAck(s.pcs[w].b, s.pcs[w].n)][r := ReadCopy(s.pcs[r].m, bw)], pair := Pair(w, r))
  }

  /** The writer gets the count and goes on unless nothing is left; the read is over. */
  function GoAck(s: State, w: Thread, r: Thread): State
    requires Enabled(s, Ack(w, r))
  {
    var b := s.pcs[w].b;
    var n := s.pcs[w].n + |s.pcs[r].data|;
    var next := if n < |b| then WriteSend(b, n) else WriteReturn(b, n);
    s.(pcs := s.pcs[w := next][r := Idle], log := s.log + [ReadDone(s.pcs[r].m, s.pcs[r].data, Nil)], pair := NoPair)
  }

  function After(s: State, step: Step): State
    requires Enabled(s, step)
  {
    match step
    case Start(t, call) => Goto(s, t, Entry(call))
    case One(t) => GoOne(s, t)
    case Meet(w, r) => GoMeet(s, w, r)
    case Ack(w, r) => GoAck(s, w, r)
  }

  // ----------------------------------------------------------------- the invariant

  predicate HoldsLock(pc: Pc) {
    match pc
    case WriteSend(_, _) => true
    case WriteAck(_, _) => true
    case WriteLoadW(_, _, locked) => locked
    case WriteLoadR(_, _, locked, _) => locked
    case WriteReturn(_, _) => true
    case _ => false
  }

  /** What every thread's place tells about the two error cells. */
  predicate ErrorsOk(s: State, pc: Pc) {
    match pc
    case ReadLoadR(_) => s.done
    case ReadLoadW(_, seen) => s.done && seen in {Nil, s.rerr} && (seen == Nil ==> s.werr != Nil)
    case WriteLoadW(_, _, _) => s.done
    case WriteLoadR(_, _, _, seen) => s.done && seen in {Nil, s.werr} && (seen == Nil ==> s.rerr != Nil)
    case StoreR(e) => e != Nil
    case StoreW(e) => e != Nil
    case Once => s.rerr != Nil || s.werr != Nil
    case _ => true
  }

  /** The part of its argument that a write has consumed. */
  predicate CountOk(pc: Pc) {
    match pc
    case WriteSend(b, n) => n <= |b|
    case WriteAck(b, n) => n <= |b|
    case WriteLoadW(b, n, locked) => n <= |b| && (!locked ==> n == 0)
    case WriteLoadR(b, n, locked, _) => n <= |b| && (!locked ==> n == 0)
    case WriteReturn(b, n) => n == |b|
    case _ => true
  }

  predicate InPair(pc: Pc) { pc.WriteAck? || pc.ReadCopy? || pc.ReadAck? }

  /** A thread in a transfer is one of the two of the one transfer under way, and only
      the thread that has the lock is at a place that needs it. */
  predicate PlaceOk(s: State, t: Thread, pc: Pc) {
    && (HoldsLock(pc) <==> s.lock == Held(t))
    && (pc.WriteAck? <==> s.pair.Pair? && s.pair.w == t)
    && (pc.ReadCopy? || pc.ReadAck? <==> s.pair.Pair? && s.pair.r == t)
  }

  /** What the reader has is what the writer offers. */
  predicate PairOk(s: State) {
    s.pair.Pair? ==>
      var w := s.pair.w; var r := s.pair.r;
      && w < |s.pcs| && r < |s.pcs|
      && s.pcs[w].WriteAck? && s.pcs[w].n <= |s.pcs[w].b|
      && (s.pcs[r].ReadCopy? || s.pcs[r].ReadAck?)
      && (s.pcs[r].ReadCopy? ==> s.pcs[r].bw == Rest(s.pcs[w].b, s.pcs[w].n))
      && (s.pcs[r].ReadAck? ==> s.pcs[r].data == Prefix(Rest(s.pcs[w].b, s.pcs[w].n), s.pcs[r].m))
  }

  /** A return with an error tells who closed the pipe. */
  predicate ReturnOk(s: State, ret: Return) {
    match ret
    case ReadDone(m, data, err) =>
      && |data| <= m
      && (err != Nil ==> data == [] && s.done && (err == s.werr || (err == ErrClosedPipe && s.rerr != Nil)))
    case WriteDone(b, n, err) =>
      && n <= |b|
      && (err == Nil ==> n == |b|)
      && (err != Nil ==> s.done && (err == s.rerr || (err == ErrClosedPipe && s.werr != Nil)))
    case CloseDone => s.done
  }

  /** The bytes that the reads gave. */
  function Given(log: seq<Return>): seq<Byte> {
    if log == [] then []
    else Given(log[..|log| - 1]) + (if log[|log| - 1].ReadDone? then log[|log| - 1].data else [])
  }

  /** The bytes that the writes consumed. */
  function Taken(log: seq<Return>): seq<Byte> {
    if log == [] then []
    else
      var last := log[|log| - 1];
      Taken(log[..|log| - 1]) + (if last.WriteDone? then Prefix(last.b, last.n) else [])
  }

  /** What the write that has the lock has consumed so far. */
  function Current(s: State): seq<Byte> {
    if s.lock.Held? && s.lock.t < |s.pcs| && HoldsLock(s.pcs[s.lock.t])
    then Prefix(s.pcs[s.lock.t].b, s.pcs[s.lock.t].n) else []
  }

  ghost predicate PlacesOk(s: State) { forall t: Thread :: t < |s.pcs| ==> PlaceOk(s, t, s.pcs[t]) }
  ghost predicate CountsOk(s: State) { forall t: Thread :: t < |s.pcs| ==> CountOk(s.pcs[t]) }
  ghost predicate FaultsOk(s: State) {
    && (s.done ==> s.rerr != Nil || s.werr != Nil)
    && forall t: Thread :: t < |s.pcs| ==> ErrorsOk(s, s.pcs[t])
  }
  ghost predicate LogOk(s: State) { forall i :: 0 <= i < |s.log| ==> ReturnOk(s, s.log[i]) }
  ghost predicate StreamOk(s: State) { Given(s.log) == Taken(s.log) + Current(s) }

  ghost predicate Inv(s: State) {
    && (s.lock.Held? ==> s.lock.t < |s.pcs|)
    && PlacesOk(s) && CountsOk(s) && PairOk(s) && FaultsOk(s) && LogOk(s) && StreamOk(s)
  }

  // ---------------------------------------------------------- one step of one thread

  lemma PlacesOne(s: State, t: Thread)
    requires Enabled(s, One(t)) && PlacesOk(s)
    ensures PlacesOk(GoOne(s, t))
  {
    var n := GoOne(s, t);
    assert PlaceOk(s, t, s.pcs[t]);
    forall u: Thread | u < |n.pcs| ensures PlaceOk(n, u, n.pcs[u]) {
      assert PlaceOk(s, u, s.pcs[u]);
    }
  }

  lemma CountsOne(s: State, t: Thread)
    requires Enabled(s, One(t)) && CountsOk(s)
    ensures CountsOk(GoOne(s, t))
  {
    var n := GoOne(s, t);
    assert CountOk(s.pcs[t]);
    forall u: Thread | u < |n.pcs| ensures CountOk(n.pcs[u]) {
      assert CountOk(s.pcs[u]);
    }
  }

  /** The reader copies what it can hold. */
  lemma PairCopy(s: State, t: Thread)
    requires Enabled(s, One(t)) && PairOk(s) && s.pcs[t].ReadCopy? && s.pair.Pair? && s.pair.r == t
    ensures PairOk(GoOne(s, t))
  {
    hide Rest, Prefix;
  }

  lemma PairOne(s: State, t: Thread)
    requires Enabled(s, One(t)) && PlacesOk(s) && PairOk(s)
    ensures PairOk(GoOne(s, t))
  {
    assert PlaceOk(s, t, s.pcs[t]);
    if s.pcs[t].ReadCopy? {
      PairCopy(s, t);
    } else {
      hide Rest, Prefix, PlacesOk;
      var n := GoOne(s, t);
      assert n.pair == s.pair;
      assert s.pair.Pair? ==> s.pair.w != t && s.pair.r != t;
      assert forall u: Thread :: u < |s.pcs| && u != t ==> n.pcs[u] == s.pcs[u];
      hide GoOne, PlaceOk;
    }
  }

  lemma FaultsOne(s: State, t: Thread)
    requires Enabled(s, One(t)) && FaultsOk(s)
    ensures FaultsOk(GoOne(s, t))
  {
    var n := GoOne(s, t);
    assert ErrorsOk(s, s.pcs[t]);
    forall u: Thread | u < |n.pcs| ensures ErrorsOk(n, n.pcs[u]) {
      assert ErrorsOk(s, s.pcs[u]);
    }
  }

  /** The pipe stays closed and an error cell keeps its error. */
  predicate Later(s: State, n: State) {
    (s.done ==> n.done) && (s.rerr != Nil ==> n.rerr == s.rerr) && (s.werr != Nil ==> n.werr == s.werr)
  }

  lemma ReturnStays(s: State, n: State, ret: Return)
    requires ReturnOk(s, ret) && Later(s, n)
    ensures ReturnOk(n, ret)
  {
  }

  lemma LogOne(s: State, t: Thread)
    requires Enabled(s, One(t)) && FaultsOk(s) && CountsOk(s) && LogOk(s)
    ensures LogOk(GoOne(s, t))
  {
    var n := GoOne(s, t);
    assert ErrorsOk(s, s.pcs[t]) && CountOk(s.pcs[t]);
    hide FaultsOk, CountsOk;
    assert Later(s, n);
    if n.log != s.log { assert ReturnOk(n, n.log[|s.log|]); }
    hide ReturnOk, GoOne, Later;
    forall i | 0 <= i < |n.log| ensures ReturnOk(n, n.log[i]) {
      if i < |s.log| { ReturnStays(s, n, s.log[i]); }
    }
  }

  lemma LogGrows(log: seq<Return>, ret: Return)
    ensures Given(log + [ret]) == Given(log) + (if ret.ReadDone? then ret.data else [])
    ensures Taken(log + [ret]) == Taken(log) + (if ret.WriteDone? then Prefix(ret.b, ret.n) else [])
  {
    assert (log + [ret])[..|log|] == log;
  }

  /** The write that has the lock goes on. */
  lemma StreamHolder(s: State, t: Thread)
    requires Enabled(s, One(t)) && StreamOk(s)
    requires HoldsLock(s.pcs[t]) && s.lock == Held(t)
    ensures StreamOk(GoOne(s, t))
  {
    hide Given, Taken, Prefix, CloseError;
    var n := GoOne(s, t);
    var pc := s.pcs[t];
    if pc.WriteLoadR? {
      LogGrows(s.log, WriteDone(pc.b, pc.n, CloseError(pc.seen, s.rerr)));
      assert Current(n) == [];
    } else if pc.WriteReturn? {
      LogGrows(s.log, WriteDone(pc.b, pc.n, Nil));
      assert Current(n) == [];
    } else {
      assert n.log == s.log && Current(n) == Current(s);
    }
  }

  /** A thread without the lock goes on. */
  lemma StreamOther(s: State, t: Thread)
    requires Enabled(s, One(t)) && StreamOk(s) && CountOk(s.pcs[t])
    requires !HoldsLock(s.pcs[t]) && s.lock != Held(t) && !s.pcs[t].WriteLock?
    ensures StreamOk(GoOne(s, t))
  {
    hide Given, Taken, CloseError;
    var n := GoOne(s, t);
    assert Current(n) == Current(s);
    if n.log != s.log { LogGrows(s.log, n.log[|s.log|]); }
  }

  lemma StreamLock(s: State, t: Thread)
    requires Enabled(s, One(t)) && StreamOk(s) && s.pcs[t].WriteLock?
    ensures StreamOk(GoOne(s, t))
  {
    hide Given, Taken;
    assert Current(GoOne(s, t)) == [] == Current(s);
  }

  /** A step of one thread moves no byte: a write that returns hands what it consumed
      from the running write to the finished ones. */
  lemma StreamOne(s: State, t: Thread)
    requires Enabled(s, One(t)) && PlacesOk(s) && CountsOk(s) && StreamOk(s)
    ensures StreamOk(GoOne(s, t))
  {
    hide StreamOk, GoOne;
    assert PlaceOk(s, t, s.pcs[t]) && CountOk(s.pcs[t]);
    if HoldsLock(s.pcs[t]) { StreamHolder(s, t); }
    else if s.pcs[t].WriteLock? { StreamLock(s, t); }
    else { StreamOther(s, t); }
  }

  // --------------------------------------------------------------------- transfers

  lemma PairHasLock(s: State)
    requires Inv(s)
    ensures s.pair.Pair? ==> s.lock == Held(s.pair.w) && s.pcs[s.pair.w].WriteAck?
  {
    if s.pair.Pair? { assert PlaceOk(s, s.pair.w, s.pcs[s.pair.w]); }
  }

  /** A transfer under way can go on. */
  lemma PairGoes(s: State)
    requires Inv(s)
    ensures s.pair.Pair? ==> Enabled(s, One(s.pair.r)) || Enabled(s, Ack(s.pair.w, s.pair.r))
  {
  }

  lemma MeetKeeps(s: State, w: Thread, r: Thread)
    requires Inv(s) && Enabled(s, Meet(w, r))
    ensures Inv(GoMeet(s, w, r))
  {
    hide Given, Taken, Prefix, Rest, ReturnOk;
    var n := GoMeet(s, w, r);
    assert PlaceOk(s, w, s.pcs[w]) && PlaceOk(s, r, s.pcs[r]) && CountOk(s.pcs[w]);
    PairHasLock(s);
    forall u: Thread | u < |n.pcs| ensures PlaceOk(n, u, n.pcs[u]) && CountOk(n.pcs[u]) && ErrorsOk(n, n.pcs[u]) {
      assert PlaceOk(s, u, s.pcs[u]) && CountOk(s.pcs[u]) && ErrorsOk(s, s.pcs[u]);
    }
    forall i | 0 <= i < |n.log| ensures ReturnOk(n, n.log[i]) { ReturnStays(s, n, s.log[i]); }
    assert Current(n) == Current(s);
  }

  lemma PrefixGrows(b: seq<Byte>, n: nat, m: nat)
    requires n <= |b|
    ensures var data := Prefix(Rest(b, n), m);
            n + |data| <= |b| && |data| <= m && Prefix(b, n + |data|) == Prefix(b, n) + data
  {
  }

  lemma GivenOk(s: State, m: nat, data: seq<Byte>)
    requires |data| <= m
    ensures ReturnOk(s, ReadDone(m, data, Nil))
  {
  }

  lemma AckKeeps(s: State, w: Thread, r: Thread)
    requires Inv(s) && Enabled(s, Ack(w, r))
    ensures Inv(GoAck(s, w, r))
  {
    hide Given, Taken, Prefix, Rest, ReturnOk;
    var n := GoAck(s, w, r);
    assert PlaceOk(s, w, s.pcs[w]) && PlaceOk(s, r, s.pcs[r]) && CountOk(s.pcs[w]);
    PrefixGrows(s.pcs[w].b, s.pcs[w].n, s.pcs[r].m);
    forall u: Thread | u < |n.pcs| ensures PlaceOk(n, u, n.pcs[u]) && CountOk(n.pcs[u]) && ErrorsOk(n, n.pcs[u]) {
      assert PlaceOk(s, u, s.pcs[u]) && CountOk(s.pcs[u]) && ErrorsOk(s, s.pcs[u]);
    }
    forall i | 0 <= i < |n.log| ensures ReturnOk(n, n.log[i]) {
      if i < |s.log| { ReturnStays(s, n, s.log[i]); } else { GivenOk(n, s.pcs[r].m, s.pcs[r].data); }
    }
    LogGrows(s.log, n.log[|s.log|]);
    assert Current(n) == Current(s) + s.pcs[r].data;
  }

  lemma StartKeeps(s: State, t: Thread, call: Call)
    requires Inv(s) && Enabled(s, Start(t, call))
    ensures Inv(After(s, Start(t, call)))
  {
    hide Given, Taken, Prefix, Rest;
    var n := After(s, Start(t, call));
    assert PlaceOk(s, t, s.pcs[t]);
    forall u: Thread | u < |n.pcs| ensures PlaceOk(n, u, n.pcs[u]) && CountOk(n.pcs[u]) && ErrorsOk(n, n.pcs[u]) {
      assert PlaceOk(s, u, s.pcs[u]) && CountOk(s.pcs[u]) && ErrorsOk(s, s.pcs[u]);
    }
    forall i | 0 <= i < |n.log| ensures ReturnOk(n, n.log[i]) { assert ReturnOk(s, s.log[i]); }
    assert Current(n) == Current(s);
  }

  lemma OneKeeps(s: State, t: Thread)
    requires Inv(s) && Enabled(s, One(t))
    ensures Inv(GoOne(s, t))
  {
    hide PlacesOk, CountsOk, PairOk, FaultsOk, LogOk, StreamOk;
    PlacesOne(s, t);
    CountsOne(s, t);
    PairOne(s, t);
    FaultsOne(s, t);
    LogOne(s, t);
    StreamOne(s, t);
  }

  /** Every step of every call keeps the invariant. */
  lemma StepKeeps(s: State, step: Step)
    requires Inv(s) && Enabled(s, step)
    ensures Inv(After(s, step))
  {
    hide Inv, GoOne, GoMeet, GoAck;
    match step {
      case Start(t, call) => { StartKeeps(s, t, call); }
      case One(t) => { OneKeeps(s, t); }
      case Meet(w, r) => { MeetKeeps(s, w, r); }
      case Ack(w, r) => { AckKeeps(s, w, r); }
    }
  }

  // -------------------------------------------------------------------- whole runs

  predicate Legal(s: State, steps: seq<Step>)
    decreases |steps|
  {
    steps == [] || (Enabled(s, steps[0]) && Legal(After(s, steps[0]), steps[1..]))
  }

  function RunAll(s: State, steps: seq<Step>): State
    requires Legal(s, steps)
    decreases |steps|
  {
    if steps == [] then s else RunAll(After(s, steps[0]), steps[1..])
  }

  /** A new pipe and any number of threads. */
  function Fresh(threads: nat): State {
    State(seq(threads, i => Idle), Free, false, Nil, Nil, [], NoPair)
  }

  lemma FreshInv(threads: nat)
    ensures Inv(Fresh(threads))
  {
  }

  lemma {:induction false} RunsKeep(s: State, steps: seq<Step>)
    requires Inv(s) && Legal(s, steps)
    ensures Inv(RunAll(s, steps))
    decreases |steps|
  {
    hide Inv, Enabled, After;
    if steps != [] {
      StepKeeps(s, steps[0]);
      RunsKeep(After(s, steps[0]), steps[1..]);
    }
  }

  /** The stream is preserved in every interleaving of any number of calls: the bytes
      that reads have given, in the order of their returns, are those that writes have
      consumed, in the order in which they had the lock; the last of them may be running. */
  lemma StreamPreserved(threads: nat, steps: seq<Step>)
    requires Legal(Fresh(threads), steps)
    ensures var s := RunAll(Fresh(threads), steps); Given(s.log) == Taken(s.log) + Current(s)
  {
    hide RunAll, Legal;
    FreshInv(threads);
    RunsKeep(Fresh(threads), steps);
  }

  /** What every finished call may have returned: a write without an error consumed all
      of its argument, and an error is given only on a closed pipe. It is the one that
      the other side was first closed with, unless the own side is closed too. */
  lemma ReturnsRight(threads: nat, steps: seq<Step>, i: nat)
    requires Legal(Fresh(threads), steps)
    requires i < |RunAll(Fresh(threads), steps).log|
    ensures var s := RunAll(Fresh(threads), steps); ReturnOk(s, s.log[i])
  {
    hide RunAll, Legal, ReturnOk;
    FreshInv(threads);
    RunsKeep(Fresh(threads), steps);
  }

  /** At most one transfer is under way, and it can always be completed: the reader can
      copy, or reader and writer can exchange the count, whether the pipe is closed or not. */
  lemma OneTransfer(threads: nat, steps: seq<Step>, w: Thread)
    requires Legal(Fresh(threads), steps)
    requires var s := RunAll(Fresh(threads), steps); w < |s.pcs| && InPair(s.pcs[w])
    ensures var s := RunAll(Fresh(threads), steps);
            && s.pair.Pair?
            && (forall u: Thread :: u < |s.pcs| && InPair(s.pcs[u]) ==> u == s.pair.w || u == s.pair.r)
            && (Enabled(s, One(s.pair.r)) || Enabled(s, Ack(s.pair.w, s.pair.r)))
  {
    hide RunAll, Legal, Given, Taken, Prefix, Rest;
    FreshInv(threads);
    RunsKeep(Fresh(threads), steps);
    var s := RunAll(Fresh(threads), steps);
    assert PlaceOk(s, w, s.pcs[w]);
    forall u: Thread | u < |s.pcs| && InPair(s.pcs[u]) ensures u == s.pair.w || u == s.pair.r {
      assert PlaceOk(s, u, s.pcs[u]);
    }
  }

  // ---------------------------------------------------------------- no lost wake-up

  predicate Internal(step: Step) { !step.Start? }

  ghost predicate Stuck(s: State) { forall step :: Internal(step) ==> !Enabled(s, step) }

  /** The thread with the lock is itself waiting for a reader. */
  lemma HolderWaits(s: State)
    requires Inv(s) && s.lock.Held? && Stuck(s)
    ensures !s.done && s.pcs[s.lock.t].WriteSend?
  {
    hide StreamOk, FaultsOk, LogOk, CountsOk, Given, Taken;
    var h := s.lock.t;
    assert PlaceOk(s, h, s.pcs[h]) && !Enabled(s, One(h));
    PairGoes(s);
    assert !s.pair.Pair?;
  }

  lemma WaitsOnly(s: State, t: Thread)
    requires Inv(s) && t < |s.pcs| && !s.pcs[t].Idle? && Stuck(s)
    ensures !s.done
    ensures if s.lock.Held? then t == s.lock.t || s.pcs[t].WriteLock? else s.pcs[t].ReadWait?
  {
    hide StreamOk, FaultsOk, LogOk, CountsOk, Given, Taken;
    assert PlaceOk(s, t, s.pcs[t]) && !Enabled(s, One(t));
    if s.lock.Held? {
      HolderWaits(s);
      assert !Enabled(s, Meet(s.lock.t, t));
    }
    PairGoes(s);
    assert !s.pair.Pair?;
  }

  /** When no call can go on, the open pipe has only reads waiting, or one write waiting
      for a reader and only writes waiting for the lock; a closed pipe has no call left. */
  lemma OnlyWaiting(threads: nat, steps: seq<Step>)
    requires Legal(Fresh(threads), steps) && Stuck(RunAll(Fresh(threads), steps))
    ensures var s := RunAll(Fresh(threads), steps);
            if s.done then forall t: Thread :: t < |s.pcs| ==> s.pcs[t].Idle?
            else if s.lock.Held? then
              s.lock.t < |s.pcs| && s.pcs[s.lock.t].WriteSend?
              && forall t: Thread :: t < |s.pcs| && t != s.lock.t ==> s.pcs[t].Idle? || s.pcs[t].WriteLock?
            else forall t: Thread :: t < |s.pcs| ==> s.pcs[t].Idle? || s.pcs[t].ReadWait?
  {
    hide RunAll, Legal, Stuck;
    FreshInv(threads);
    RunsKeep(Fresh(threads), steps);
    var s := RunAll(Fresh(threads), steps);
    if s.lock.Held? { HolderWaits(s); }
    forall t: Thread | t < |s.pcs| && !s.pcs[t].Idle?
      ensures !s.done
      ensures if s.lock.Held? then t == s.lock.t || s.pcs[t].WriteLock? else s.pcs[t].ReadWait?
    {
      WaitsOnly(s, t);
    }
  }

  function Rank(pc: Pc): nat {
    match pc
    case Idle => 0
    case ReadCheck(_) => 5
    case ReadWait(_) => 4
    case ReadCopy(_, _) => 3
    case ReadAck(_, _) => 2
    case ReadLoadR(_) => 2
    case ReadLoadW(_, _) => 1
    case WriteCheck(_) => 6
    case WriteLock(_) => 5
    case WriteSend(_, _) => 4
    case WriteAck(_, _) => 3
    case WriteLoadW(_, _, _) => 2
    case WriteLoadR(_, _, _, _) => 1
    case WriteReturn(_, _) => 1
    case StoreR(_) => 2
    case StoreW(_) => 2
    case Once => 1
  }

  function Weight(pcs: seq<Pc>): nat {
    if pcs == [] then 0 else Rank(pcs[0]) + Weight(pcs[1..])
  }

  lemma {:induction false} WeightAt(pcs: seq<Pc>, t: Thread, pc: Pc)
    requires t < |pcs|
    ensures Weight(pcs[t := pc]) + Rank(pcs[t]) == Weight(pcs) + Rank(pc)
  {
    hide Rank;
    if t == 0 {
      assert pcs[0 := pc][1..] == pcs[1..];
    } else {
      WeightAt(pcs[1..], t - 1, pc);
      assert pcs[t := pc][1..] == pcs[1..][t - 1 := pc];
    }
  }

  lemma OneWeighs(s: State, t: Thread)
    requires Enabled(s, One(t))
    ensures Weight(GoOne(s, t).pcs) < Weight(s.pcs)
  {
    hide Weight, Prefix, CloseError;
    WeightAt(s.pcs, t, GoOne(s, t).pcs[t]);
  }

  /** Two threads move on together. */
  lemma TwoWeigh(pcs: seq<Pc>, w: Thread, r: Thread, pc: Pc, pc': Pc)
    requires w < |pcs| && r < |pcs| && w != r && Rank(pc) + Rank(pc') < Rank(pcs[w]) + Rank(pcs[r])
    ensures Weight(pcs[w := pc][r := pc']) < Weight(pcs)
  {
    hide Weight, Rank;
    WeightAt(pcs, w, pc);
    WeightAt(pcs[w := pc], r, pc');
  }

  lemma StepWeighs(s: State, step: Step)
    requires Enabled(s, step) && Internal(step)
    ensures Weight(After(s, step).pcs) < Weight(s.pcs)
  {
    hide Weight, Prefix, Rest;
    match step {
      case One(t) => { OneWeighs(s, t); }
      case Meet(w, r) => { TwoWeigh(s.pcs, w, r, GoMeet(s, w, r).pcs[w], GoMeet(s, w, r).pcs[r]); }
      case Ack(w, r) => { TwoWeigh(s.pcs, w, r, GoAck(s, w, r).pcs[w], Idle); }
      case Start(_, _) =>
    }
  }

  /** Calls that have started take only so many steps: unless new calls come, every run
      stops, and after a close it stops with every call returned. */
  lemma {:induction false} RunsStop(s: State, steps: seq<Step>)
    requires Legal(s, steps) && forall i :: 0 <= i < |steps| ==> Internal(steps[i])
    ensures |steps| + Weight(RunAll(s, steps).pcs) <= Weight(s.pcs)
    decreases |steps|
  {
    hide Weight, After, Enabled;
    if steps != [] {
      StepWeighs(s, steps[0]);
      RunsStop(After(s, steps[0]), steps[1..]);
    }
  }
}
