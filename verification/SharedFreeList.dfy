/** The list that other threads push freed cells to with a compare-and-swap loop, and
    that the owner empties with an exchange: any number of threads, every order of
    their atomic steps. */
module SharedFreeList {

  type Addr = nat
  type Thread = nat

  const NIL := 0

  /** Where a thread is in its push: before the load, before the store of what it
      loaded into the cell, before the compare-and-swap. */
  datatype Pc = Idle | Ready(cell: Addr) | Loaded(cell: Addr, seen: Addr) | Stored(cell: Addr)

  /** Where a cell is: handed out, with a thread that pushes it, on the shared list,
      or on the owner's. */
  datatype Place = Out | With(t: Thread) | OnShared | OnOwn

  /** next, head, ownHead and pcs are the machine; the other fields record what it
      means: the place of each cell, the two lists, and all pushes and drains so far. */
  datatype State = State(
    next: map<Addr, Addr>, head: Addr, ownHead: Addr, pcs: map<Thread, Pc>,
    place: map<Addr, Place>, chain: seq<Addr>, own: seq<Addr>,
    pushed: multiset<Addr>, drained: multiset<Addr>)

  /** What can happen: a thread frees a cell and goes through its steps; the owner
      takes the whole list, hands out a cell of its own list, or puts one there; whoever
      holds a cell writes what it likes where the link was. */
  datatype Step =
    | Begin(t: Thread, f: Addr) | Load(t: Thread) | Store(t: Thread) | Swap(t: Thread) | Fail(t: Thread)
    | Drain | Take | OwnFree(f: Addr) | Write(f: Addr, value: Addr)

  /** When a step can be taken; the memory alone decides, but for the client's duty to
      free and write only cells handed out to it. */
  predicate Enabled(s: State, step: Step) {
    match step
    case Begin(t, f) => f in s.place && s.place[f].Out? && (t in s.pcs ==> s.pcs[t].Idle?)
    case Load(t) => t in s.pcs && s.pcs[t].Ready?
    case Store(t) => t in s.pcs && s.pcs[t].Loaded?
    case Swap(t) => t in s.pcs && s.pcs[t].Stored? && s.pcs[t].cell in s.next && s.head == s.next[s.pcs[t].cell]
    case Fail(t) => t in s.pcs && s.pcs[t].Stored?
    case Drain => s.ownHead == NIL
    case Take => s.ownHead != NIL && s.ownHead in s.next
    case OwnFree(f) => f in s.place && s.place[f].Out?
    case Write(f, _) => f in s.place && s.place[f].Out?
  }

  function Drained(place: map<Addr, Place>): map<Addr, Place> {
    map a | a in place :: if place[a] == OnShared then OnOwn else place[a]
  }

  /** A failed exchange leaves the head it found in the cell, and may fail for no
      reason. */
  function After(s: State, step: Step): State
    requires Enabled(s, step)
  {
    match step
    case Begin(t, f) => s.(place := s.place[f := With(t)], pcs := s.pcs[t := Ready(f)])
    case Load(t) => s.(pcs := s.pcs[t := Loaded(s.pcs[t].cell, s.head)])
    case Store(t) => s.(next := s.next[s.pcs[t].cell := s.pcs[t].seen], pcs := s.pcs[t := Stored(s.pcs[t].cell)])
    case Swap(t) =>
      var f := s.pcs[t].cell;
      s.(head := f, pcs := s.pcs[t := Idle], chain := [f] + s.chain, place := s.place[f := OnShared],
          pushed := s.pushed + multiset{f})
    case Fail(t) => s.(next := s.next[s.pcs[t].cell := s.head], pcs := s.pcs[t := Ready(s.pcs[t].cell)])
    case Drain =>
      s.(ownHead := s.head, head := NIL, own := s.chain, chain := [], place := Drained(s.place),
          drained := s.drained + multiset(s.chain))
    case Take =>
      s.(ownHead := s.next[s.ownHead], own := if s.own == [] then [] else s.own[1..],
          place := s.place[s.ownHead := Out])
    case OwnFree(f) => s.(next := s.next[f := s.ownHead], ownHead := f, own := [f] + s.own, place := s.place[f := OnOwn])
    case Write(f, value) => s.(next := s.next[f := value])
  }

  function First(c: seq<Addr>): Addr { if c == [] then NIL else c[0] }

  /** Following next from head visits exactly the cells of c, in order, and ends. */
  ghost predicate Chain(next: map<Addr, Addr>, head: Addr, c: seq<Addr>) {
    && head == First(c)
    && (forall i :: 0 <= i < |c| ==> c[i] != NIL && c[i] in next && next[c[i]] == First(c[i + 1..]))
    && (forall i, j :: 0 <= i < j < |c| ==> c[i] != c[j])
  }

  ghost predicate Listed(place: map<Addr, Place>, c: seq<Addr>, l: Place) {
    && (forall a :: a in c ==> a in place)
    && (forall a :: a in place ==> (place[a] == l <==> a in c))
  }

  /** A cell is with a thread exactly while the thread is pushing it. */
  ghost predicate Carried(place: map<Addr, Place>, pcs: map<Thread, Pc>) {
    && (forall t :: t in pcs && !pcs[t].Idle? ==> pcs[t].cell in place && place[pcs[t].cell] == With(t))
    && (forall a :: a in place && place[a].With? ==>
          place[a].t in pcs && !pcs[place[a].t].Idle? && pcs[place[a].t].cell == a)
  }

  ghost predicate Written(next: map<Addr, Addr>, pcs: map<Thread, Pc>) {
    forall t :: t in pcs && pcs[t].Stored? ==> pcs[t].cell in next
  }

  /** Every cell is in one place, and the memory shows where. */
  ghost predicate Inv(s: State, cells: set<Addr>) {
    && NIL !in cells && s.place.Keys == cells
    && Listed(s.place, s.chain, OnShared) && Listed(s.place, s.own, OnOwn)
    && Carried(s.place, s.pcs) && Written(s.next, s.pcs)
    && Chain(s.next, s.head, s.chain) && Chain(s.next, s.ownHead, s.own)
    && s.pushed == s.drained + multiset(s.chain)
  }

  function Start(cells: set<Addr>): State {
    State(map[], NIL, NIL, map[], map a | a in cells :: Out, [], [], multiset{}, multiset{})
  }

  lemma StartInv(cells: set<Addr>)
    requires NIL !in cells
    ensures Inv(Start(cells), cells)
  {
  }

  // ------------------------------------------------------------------ the steps

  lemma ChainFrame(next: map<Addr, Addr>, head: Addr, c: seq<Addr>, f: Addr, n: Addr)
    requires Chain(next, head, c) && f !in c
    ensures Chain(next[f := n], head, c)
  {
  }

  lemma ChainPush(next: map<Addr, Addr>, head: Addr, c: seq<Addr>, f: Addr)
    requires Chain(next, head, c) && f !in c && f != NIL && f in next && next[f] == head
    ensures Chain(next, f, [f] + c)
  {
    var d := [f] + c;
    forall i | 0 <= i < |d| ensures d[i] != NIL && d[i] in next && next[d[i]] == First(d[i + 1..]) {
      if i > 0 { assert d[i + 1..] == c[i..]; assert d[i] == c[i - 1]; }
      else { assert d[1..] == c; }
    }
  }

  lemma ChainPop(next: map<Addr, Addr>, head: Addr, c: seq<Addr>)
    requires Chain(next, head, c) && c != []
    ensures head in next && Chain(next, next[head], c[1..])
  {
    var d := c[1..];
    forall i | 0 <= i < |d| ensures d[i] != NIL && d[i] in next && next[d[i]] == First(d[i + 1..]) {
      assert d[i + 1..] == c[i + 2..];
      assert d[i] == c[i + 1];
    }
  }

  lemma ListedMove(place: map<Addr, Place>, c: seq<Addr>, l: Place, a: Addr, to: Place)
    requires Listed(place, c, l) && a in place
    ensures place[a] != l && to != l ==> Listed(place[a := to], c, l) && a !in c
    ensures place[a] != l && to == l ==> Listed(place[a := to], [a] + c, l) && a !in c
  {
  }

  lemma ListedPop(place: map<Addr, Place>, c: seq<Addr>, l: Place, to: Place)
    requires Listed(place, c, l) && c != [] && to != l && forall i, j :: 0 <= i < j < |c| ==> c[i] != c[j]
    ensures Listed(place[c[0] := to], c[1..], l)
  {
    assert forall a :: a in c <==> a == c[0] || a in c[1..];
    assert c[0] !in c[1..];
  }

  lemma CarriedMove(place: map<Addr, Place>, pcs: map<Thread, Pc>, a: Addr, to: Place)
    requires Carried(place, pcs) && a in place && !place[a].With? && !to.With?
    ensures Carried(place[a := to], pcs)
  {
  }

  lemma CarriedEnd(place: map<Addr, Place>, pcs: map<Thread, Pc>, t: Thread)
    requires Carried(place, pcs) && t in pcs && !pcs[t].Idle?
    ensures pcs[t].cell in place && place[pcs[t].cell] == With(t)
    ensures Carried(place[pcs[t].cell := OnShared], pcs[t := Idle])
  {
  }

  lemma DrainedPlaces(place: map<Addr, Place>, pcs: map<Thread, Pc>, c: seq<Addr>)
    requires Carried(place, pcs) && Listed(place, c, OnShared) && Listed(place, [], OnOwn)
    ensures Carried(Drained(place), pcs) && Listed(Drained(place), [], OnShared) && Listed(Drained(place), c, OnOwn)
    ensures Drained(place).Keys == place.Keys
  {
  }

  lemma BeginStep(s: State, cells: set<Addr>, t: Thread, f: Addr)
    requires Inv(s, cells) && Enabled(s, Begin(t, f))
    ensures Inv(After(s, Begin(t, f)), cells)
  {
    hide Chain;
  }

  /** A step within a push: the cell of t stays with t, and only its link may change. */
  lemma WithinPush(s: State, cells: set<Addr>, t: Thread, pc: Pc, n: Addr, write: bool)
    requires Inv(s, cells) && t in s.pcs && !s.pcs[t].Idle? && !pc.Idle? && pc.cell == s.pcs[t].cell
    requires pc.Stored? ==> write
    ensures Inv(s.(next := if write then s.next[pc.cell := n] else s.next, pcs := s.pcs[t := pc]), cells)
  {
    ChainFrame(s.next, s.head, s.chain, pc.cell, n);
    ChainFrame(s.next, s.ownHead, s.own, pc.cell, n);
    hide Chain;
  }

  lemma OneMore(pushed: multiset<Addr>, drained: multiset<Addr>, c: seq<Addr>, f: Addr)
    requires pushed == drained + multiset(c)
    ensures pushed + multiset{f} == drained + multiset([f] + c)
  {
  }

  lemma SwapStep(s: State, cells: set<Addr>, t: Thread)
    requires Inv(s, cells) && Enabled(s, Swap(t))
    ensures Inv(After(s, Swap(t)), cells)
  {
    hide Chain, Listed, Carried;
    var f := s.pcs[t].cell;
    CarriedEnd(s.place, s.pcs, t);
    ListedMove(s.place, s.own, OnOwn, f, OnShared);
    ListedMove(s.place, s.chain, OnShared, f, OnShared);
    ChainPush(s.next, s.head, s.chain, f);
    OneMore(s.pushed, s.drained, s.chain, f);
  }

  lemma DrainStep(s: State, cells: set<Addr>)
    requires Inv(s, cells) && Enabled(s, Drain)
    ensures Inv(After(s, Drain), cells) && s.own == []
    ensures After(s, Drain).own == s.chain
  {
    assert s.own == [];
    assert Chain(s.next, NIL, []);
    DrainedPlaces(s.place, s.pcs, s.chain);
    hide Chain, Listed, Carried, Drained, Written;
  }

  lemma TakeStep(s: State, cells: set<Addr>)
    requires Inv(s, cells) && Enabled(s, Take)
    ensures Inv(After(s, Take), cells) && s.own != [] && s.ownHead == s.own[0]
  {
    ChainPop(s.next, s.ownHead, s.own);
    assert s.own[0] in s.own;
    ListedPop(s.place, s.own, OnOwn, Out);
    ListedMove(s.place, s.chain, OnShared, s.ownHead, Out);
    CarriedMove(s.place, s.pcs, s.ownHead, Out);
    hide Chain, Listed, Carried, Written;
  }

  lemma OwnFreeStep(s: State, cells: set<Addr>, f: Addr)
    requires Inv(s, cells) && Enabled(s, OwnFree(f))
    ensures Inv(After(s, OwnFree(f)), cells)
  {
    hide Chain, Listed, Carried;
    ListedMove(s.place, s.own, OnOwn, f, OnOwn);
    ListedMove(s.place, s.chain, OnShared, f, OnOwn);
    CarriedMove(s.place, s.pcs, f, OnOwn);
    ChainFrame(s.next, s.head, s.chain, f, s.ownHead);
    ChainFrame(s.next, s.ownHead, s.own, f, s.ownHead);
    ChainPush(s.next[f := s.ownHead], s.ownHead, s.own, f);
  }

  /** What a client writes into its cell leaves both lists and every push alone. */
  lemma WriteStep(s: State, cells: set<Addr>, f: Addr, value: Addr)
    requires Inv(s, cells) && Enabled(s, Write(f, value))
    ensures Inv(After(s, Write(f, value)), cells)
  {
    hide Chain, Listed, Carried;
    ListedMove(s.place, s.own, OnOwn, f, Out);
    ListedMove(s.place, s.chain, OnShared, f, Out);
    ChainFrame(s.next, s.head, s.chain, f, value);
    ChainFrame(s.next, s.ownHead, s.own, f, value);
  }

  lemma StepKeeps(s: State, cells: set<Addr>, step: Step)
    requires Inv(s, cells) && Enabled(s, step)
    ensures Inv(After(s, step), cells)
  {
    hide Inv;
    match step
    case Begin(t, f) => BeginStep(s, cells, t, f);
    case Load(t) => WithinPush(s, cells, t, Loaded(s.pcs[t].cell, s.head), NIL, false);
    case Store(t) => WithinPush(s, cells, t, Stored(s.pcs[t].cell), s.pcs[t].seen, true);
    case Swap(t) => SwapStep(s, cells, t);
    case Fail(t) => WithinPush(s, cells, t, Ready(s.pcs[t].cell), s.head, true);
    case Drain => DrainStep(s, cells);
    case Take => TakeStep(s, cells);
    case OwnFree(f) => OwnFreeStep(s, cells, f);
    case Write(f, value) => WriteStep(s, cells, f, value);
  }

  // ------------------------------------------------------------------- all runs

  predicate Legal(s: State, steps: seq<Step>)
    decreases |steps|
  {
    steps == [] || (Enabled(s, steps[0]) && Legal(After(s, steps[0]), steps[1..]))
  }

  function Run(s: State, steps: seq<Step>): State
    requires Legal(s, steps)
    decreases |steps|
  {
    if steps == [] then s else Run(After(s, steps[0]), steps[1..])
  }

  lemma {:induction false} RunKeeps(s: State, cells: set<Addr>, steps: seq<Step>)
    requires Inv(s, cells) && Legal(s, steps)
    ensures Inv(Run(s, steps), cells)
    decreases |steps|
  {
    hide Inv;
    if steps != [] {
      StepKeeps(s, cells, steps[0]);
      RunKeeps(After(s, steps[0]), cells, steps[1..]);
    }
  }

  /** In every run: what was pushed and not drained yet is exactly what the head leads
      to, counted with repetition, so each push is drained once, also for cells that
      were drained, handed out and pushed again. */
  lemma PushedOnceDrainedOnce(cells: set<Addr>, steps: seq<Step>)
    requires NIL !in cells && Legal(Start(cells), steps)
    ensures var s := Run(Start(cells), steps);
            && Chain(s.next, s.head, s.chain)
            && s.pushed - s.drained == multiset(s.chain) && s.drained <= s.pushed
            && forall a :: s.pushed[a] - s.drained[a] <= 1
  {
    StartInv(cells);
    RunKeeps(Start(cells), cells, steps);
    var s := Run(Start(cells), steps);
    forall a ensures multiset(s.chain)[a] <= 1 { AtMostOnce(s.chain, a); }
  }

  lemma {:induction false} AtMostOnce(c: seq<Addr>, a: Addr)
    requires forall i, j :: 0 <= i < j < |c| ==> c[i] != c[j]
    ensures multiset(c)[a] <= 1
  {
    if c != [] {
      assert c == [c[0]] + c[1..];
      AtMostOnce(c[1..], a);
      assert c[0] == a ==> a !in c[1..];
    }
  }

  /** The owner's walk along next visits each drained cell once, and ends. */
  method Walk(next: map<Addr, Addr>, head: Addr, ghost c: seq<Addr>) returns (visited: seq<Addr>)
    requires Chain(next, head, c)
    ensures visited == c
  {
    visited := [];
    var it := head;
    while it != NIL
      invariant |visited| <= |c| && visited == c[..|visited|] && it == First(c[|visited|..])
      decreases |c| - |visited|
    {
      assert it == c[|visited|];
      visited := visited + [it];
      it := next[it];
    }
  }
}
