/** Bringing up the other processors: the boot processor and any number of
    application processors, interleaved step by step. */
module Smp {

  /** What the firmware reports and the build and command line allow. */
  datatype Config = Config(lapic: seq<nat>, bsp: nat, wanted: nat, max: nat)

  ghost predicate ConfigOk(c: Config) {
    && c.bsp < |c.lapic| && c.max >= 1
    && forall i, j :: 0 <= i < j < |c.lapic| ==> c.lapic[i] != c.lapic[j]
  }

  function Min(a: nat, b: nat): nat {
    if a < b then a else b
  }

  /** cores_to_boot */
  function Cores(c: Config): nat {
    Min(Min(|c.lapic|, c.max), Min(if c.wanted == 0 then 1 else c.wanted, c.max))
  }

  /** As many processors as there are, as the table holds and as were asked for,
      but one even if none was asked for. */
  lemma CoresMeaning(c: Config)
    requires ConfigOk(c)
    ensures var n := Cores(c);
            && 1 <= n <= |c.lapic| && n <= c.max && (c.wanted == 0 ==> n == 1) && (c.wanted > 0 ==> n <= c.wanted)
            && (n == |c.lapic| || n == c.max || n == c.wanted || c.wanted == 0)
  {
  }

  /** The boot processor starts this one. */
  predicate Started(c: Config, a: nat) {
    a < |c.lapic| && a != c.bsp && a < Cores(c)
  }

  datatype Core = Core(logical: nat, lapic: nat)

  /** Where an application processor is: waiting to be started, at the spin
      lock, in the locked section after each of its shared accesses, or past it. */
  datatype Pc =
    | Parked | Entering | Locked
    | Loaded(i: nat) | Counted(i: nat) | Published(i: nat) | Online(i: nat) | Running(i: nat)

  /** Where the boot processor is. */
  datatype BspPc = Boot | Registered | Numbered | Starting(i: nat) | Waiting | Checking(i: nat) | Finished | Panicked

  /** `handlers` are the logical numbers the boot processor has installed
      interrupt handlers for, in order. */
  datatype State = State(lock: bool, count: nat, blocks: map<nat, Core>, online: nat, ap: seq<Pc>, bsp: BspPc,
                         handlers: seq<nat>)

  function Init(c: Config): State {
    State(false, 0, map[], 0, seq(|c.lapic|, i => Parked), Boot, [])
  }

  /** One step of an application processor: one shared access. */
  function ApStep(c: Config, s: State, a: nat): State
    requires a < |s.ap| == |c.lapic|
  {
    match s.ap[a]
    case Parked => s
    case Entering => if s.lock then s else s.(lock := true, ap := s.ap[a := Locked])
    case Locked => s.(ap := s.ap[a := Loaded(s.count)])
    case Loaded(i) => s.(count := i + 1, ap := s.ap[a := Counted(i)])
    case Counted(i) => s.(blocks := s.blocks[i := Core(i, c.lapic[a])], ap := s.ap[a := Published(i)])
    case Published(i) => s.(online := s.online + 1, ap := s.ap[a := Online(i)])
    case Online(i) => s.(lock := false, ap := s.ap[a := Running(i)])
    case Running(_) => s
  }

  function BspStep(c: Config, s: State): State
    requires |s.ap| == |c.lapic| && c.bsp < |c.lapic|
  {
    match s.bsp
    case Boot => s.(blocks := s.blocks[s.count := Core(0, c.lapic[c.bsp])], bsp := Registered)
    case Registered => s.(count := s.count + 1, bsp := Numbered)
    case Numbered => s.(online := s.online + 1, bsp := if |c.lapic| >= 2 then Starting(0) else Finished)
    case Starting(i) =>
      if i >= |c.lapic| then s.(bsp := Waiting)
      else if Started(c, i) then s.(ap := s.ap[i := Entering], bsp := Starting(i + 1))
      else s.(bsp := Starting(i + 1))
    case Waiting => if s.online < Cores(c) then s else s.(bsp := Checking(0))
    case Checking(i) =>
      if i >= Cores(c) then s.(bsp := Finished)
      else if i !in s.blocks then s.(bsp := Panicked)
      else s.(handlers := s.handlers + [i], bsp := Checking(i + 1))
    case Finished => s
    case Panicked => s
  }

  /** Processor `who` takes a step. */
  function Step(c: Config, s: State, who: nat): State
    requires who < |c.lapic| == |s.ap| && c.bsp < |c.lapic|
  {
    if who == c.bsp then BspStep(c, s) else ApStep(c, s, who)
  }

  /** An interleaving: which processor moves next, over and over. */
  ghost function Run(c: Config, s: State, who: seq<nat>): (r: State)
    requires c.bsp < |c.lapic| == |s.ap| && forall i :: 0 <= i < |who| ==> who[i] < |c.lapic|
    ensures |r.ap| == |s.ap|
    decreases |who|
  {
    if who == [] then s else Run(c, Step(c, s, who[0]), who[1..])
  }

  // ----- what every step keeps

  /** In the locked section. */
  predicate Inside(p: Pc) {
    p.Locked? || p.Loaded? || p.Counted? || p.Published? || p.Online?
  }

  /** Has taken a logical number. */
  predicate HasNumber(p: Pc) {
    p.Counted? || p.Published? || p.Online? || p.Running?
  }

  function Number(p: Pc): nat
    requires HasNumber(p)
  {
    match p
    case Counted(i) => i
    case Published(i) => i
    case Online(i) => i
    case Running(i) => i
    case _ => 0
  }

  /** How far the counters are while one processor is in the locked section. */
  ghost predicate HolderOk(s: State, p: Pc) {
    match p
    case Locked => s.count == s.online
    case Loaded(i) => i == s.count == s.online
    case Counted(i) => i == s.online && s.count == s.online + 1
    case Published(i) => i == s.online && s.count == s.online + 1
    case Online(i) => s.count == s.online && i + 1 == s.online
    case _ => true
  }

  ghost predicate BspStarted(s: State) {
    !s.bsp.Boot? && !s.bsp.Registered? && !s.bsp.Numbered?
  }

  /** The boot processor's first steps, before any other processor runs. */
  ghost predicate EarlyOk(s: State) {
    && (s.bsp.Boot? ==> s.count == 0 && s.online == 0)
    && (s.bsp.Registered? ==> s.count == 0 && s.online == 0 && 0 in s.blocks && s.blocks[0].logical == 0)
    && (s.bsp.Numbered? ==> s.count == 1 && s.online == 0 && 0 in s.blocks && s.blocks[0].logical == 0)
    && (!BspStarted(s) ==> !s.lock && forall a :: 0 <= a < |s.ap| ==> s.ap[a] == Parked)
    && (BspStarted(s) ==> s.online >= 1)
  }

  /** At most one processor is in the locked section, exactly when the lock is
      taken. */
  ghost predicate LockOk(s: State) {
    && (forall a, b :: 0 <= a < |s.ap| && 0 <= b < |s.ap| && Inside(s.ap[a]) && Inside(s.ap[b]) ==> a == b)
    && (forall a :: 0 <= a < |s.ap| && Inside(s.ap[a]) ==> s.lock && HolderOk(s, s.ap[a]))
    && (s.lock ==> exists a :: 0 <= a < |s.ap| && Inside(s.ap[a]))
    && (!s.lock && BspStarted(s) ==> s.count == s.online)
  }

  /** Logical numbers are different, below the count, and never the boot
      processor's; a published one names its processor's block. */
  ghost predicate NumbersOk(c: Config, s: State)
    requires |s.ap| == |c.lapic|
  {
    && (forall a :: 0 <= a < |s.ap| && HasNumber(s.ap[a]) ==>
          && 1 <= Number(s.ap[a]) < s.count && BspStarted(s)
          && (!s.ap[a].Counted? ==>
                Number(s.ap[a]) in s.blocks && s.blocks[Number(s.ap[a])] == Core(Number(s.ap[a]), c.lapic[a]))
          && (s.ap[a].Running? ==> Number(s.ap[a]) < s.online))
    && (forall a, b :: 0 <= a < b < |s.ap| && HasNumber(s.ap[a]) && HasNumber(s.ap[b]) ==>
          Number(s.ap[a]) != Number(s.ap[b]))
  }

  /** Every block below the online count is published with its own number, and
      nothing is published at or above the block count; block 0 is the boot
      processor's. */
  ghost predicate BlocksOk(c: Config, s: State)
    requires c.bsp < |c.lapic|
  {
    && (0 in s.blocks ==> s.blocks[0] == Core(0, c.lapic[c.bsp]))
    && (forall i :: 0 <= i < s.online ==> i in s.blocks && s.blocks[i].logical == i)
    && (forall i :: i in s.blocks ==> i < s.count || (s.bsp.Registered? && i == 0))
  }

  /** 0, 1, .. n - 1 */
  function Upto(n: nat): (s: seq<nat>)
    ensures |s| == n && forall i :: 0 <= i < n ==> s[i] == i
  {
    seq(n, i => i)
  }

  ghost predicate BspOk(c: Config, s: State)
    requires |s.ap| == |c.lapic|
  {
    && !s.bsp.Panicked?
    && (s.bsp.Checking? ==> s.online >= Cores(c) && s.handlers == Upto(s.bsp.i) && s.bsp.i <= Cores(c))
    && (s.bsp.Finished? && |c.lapic| >= 2 ==> s.online >= Cores(c) && s.handlers == Upto(Cores(c)))
    && (!s.bsp.Checking? && !s.bsp.Finished? ==> s.handlers == [])
    && (forall a :: 0 <= a < |s.ap| && s.ap[a] != Parked ==> Started(c, a))
    && (s.bsp.Starting? ==> forall a :: s.bsp.i <= a < |s.ap| ==> s.ap[a] == Parked)
  }

  ghost predicate Inv(c: Config, s: State) {
    && |s.ap| == |c.lapic| && c.bsp < |c.lapic|
    && EarlyOk(s) && LockOk(s) && NumbersOk(c, s) && BlocksOk(c, s) && BspOk(c, s)
  }

  lemma InitOk(c: Config)
    requires ConfigOk(c)
    ensures Inv(c, Init(c))
  {
  }

  /** A step of the boot processor parks nobody and moves only a parked one. */
  lemma BspMoves(c: Config, s: State)
    requires Inv(c, s)
    ensures var t := BspStep(c, s);
            && |t.ap| == |s.ap| && t.lock == s.lock
            && forall a :: 0 <= a < |s.ap| ==>
                 t.ap[a] == s.ap[a] || (s.ap[a] == Parked && t.ap[a] == Entering && Started(c, a))
  {
    hide NumbersOk, BlocksOk, LockOk;
  }

  lemma BspKeeps(c: Config, s: State)
    requires Inv(c, s)
    ensures Inv(c, BspStep(c, s))
  {
    hide NumbersOk, BlocksOk, LockOk, EarlyOk, BspOk;
    BspMoves(c, s);
    BspKeepsLock(c, s);
    BspKeepsNumbers(c, s);
    BspKeepsBlocks(c, s);
    BspKeepsSelf(c, s);
  }

  lemma BspKeepsLock(c: Config, s: State)
    requires Inv(c, s)
    ensures LockOk(BspStep(c, s))
  {
    hide NumbersOk, BlocksOk, BspOk;
    var t := BspStep(c, s);
    BspMoves(c, s);
    assert forall a :: 0 <= a < |s.ap| ==> (Inside(t.ap[a]) <==> Inside(s.ap[a]));
    assert forall a :: 0 <= a < |s.ap| && Inside(s.ap[a]) ==> t.ap[a] == s.ap[a];
  }

  lemma BspKeepsNumbers(c: Config, s: State)
    requires Inv(c, s)
    ensures |BspStep(c, s).ap| == |c.lapic| && NumbersOk(c, BspStep(c, s))
  {
    hide LockOk, BspOk;
    BspMoves(c, s);
    BspBlocksGrow(c, s);
    hide BspStep;
    var t := BspStep(c, s);
    assert forall a :: 0 <= a < |s.ap| ==> (HasNumber(t.ap[a]) <==> HasNumber(s.ap[a]));
    assert forall a :: 0 <= a < |s.ap| && HasNumber(s.ap[a]) ==> t.ap[a] == s.ap[a];
  }

  /** Once started, the boot processor leaves the blocks and the counters. */
  lemma BspBlocksGrow(c: Config, s: State)
    requires Inv(c, s)
    ensures var t := BspStep(c, s);
            && (BspStarted(s) ==> t.blocks == s.blocks && t.count == s.count && t.online == s.online && BspStarted(t))
            && (!BspStarted(s) ==> forall a :: 0 <= a < |s.ap| ==> s.ap[a] == Parked)
  {
    hide LockOk, NumbersOk, BlocksOk;
  }

  lemma BspKeepsBlocks(c: Config, s: State)
    requires Inv(c, s)
    ensures BlocksOk(c, BspStep(c, s)) && EarlyOk(BspStep(c, s))
  {
    hide LockOk, NumbersOk;
  }

  lemma BspKeepsSelf(c: Config, s: State)
    requires Inv(c, s)
    ensures |BspStep(c, s).ap| == |c.lapic| && BspOk(c, BspStep(c, s))
  {
    hide LockOk, NumbersOk;
    BspMoves(c, s);
    if s.bsp.Checking? {
      assert Upto(s.bsp.i) + [s.bsp.i] == Upto(s.bsp.i + 1);
    }
    assert Upto(0) == [];
  }

  lemma ApKeeps(c: Config, s: State, a: nat)
    requires Inv(c, s) && a < |s.ap|
    ensures Inv(c, ApStep(c, s, a))
  {
    ApKeepsLock(c, s, a);
    ApKeepsNumbers(c, s, a);
    ApKeepsBlocks(c, s, a);
    hide LockOk, NumbersOk, BlocksOk;
  }

  lemma ApKeepsLock(c: Config, s: State, a: nat)
    requires Inv(c, s) && a < |s.ap|
    ensures LockOk(ApStep(c, s, a))
  {
    hide NumbersOk, BlocksOk;
    var t := ApStep(c, s, a);
    assert forall b :: 0 <= b < |s.ap| && b != a ==> t.ap[b] == s.ap[b];
    if Inside(s.ap[a]) {
      assert forall b :: 0 <= b < |s.ap| && Inside(s.ap[b]) ==> b == a;
    }
    if Inside(t.ap[a]) {
      assert t.lock;
    }
  }

  lemma ApKeepsNumbers(c: Config, s: State, a: nat)
    requires Inv(c, s) && a < |s.ap|
    ensures NumbersOk(c, ApStep(c, s, a))
  {
    hide BlocksOk;
    var t := ApStep(c, s, a);
    assert forall b :: 0 <= b < |s.ap| && b != a ==> t.ap[b] == s.ap[b];
  }

  lemma ApKeepsBlocks(c: Config, s: State, a: nat)
    requires Inv(c, s) && a < |s.ap|
    ensures BlocksOk(c, ApStep(c, s, a)) && EarlyOk(ApStep(c, s, a))
  {
    assert s.ap[a] != Parked ==> BspStarted(s);
  }

  /** Every state of every interleaving keeps the invariant. */
  lemma {:induction false} RunOk(c: Config, s: State, who: seq<nat>)
    requires Inv(c, s) && forall i :: 0 <= i < |who| ==> who[i] < |c.lapic|
    ensures Inv(c, Run(c, s, who))
    decreases |who|
  {
    hide Inv;
    if who != [] {
      StepOk(c, s, who[0]);
      RunOk(c, Step(c, s, who[0]), who[1..]);
    }
  }

  lemma StepOk(c: Config, s: State, who: nat)
    requires Inv(c, s) && who < |c.lapic|
    ensures c.bsp < |c.lapic| == |s.ap| && Inv(c, Step(c, s, who))
  {
    if who == c.bsp {
      BspKeeps(c, s);
    } else {
      ApKeeps(c, s, who);
    }
  }

  // ----- counting the processors

  ghost function NumberedSet(s: State): set<nat> {
    set a: nat | a < |s.ap| && HasNumber(s.ap[a])
  }

  ghost predicate Owned(s: State, i: nat) {
    exists a :: 0 <= a < |s.ap| && HasNumber(s.ap[a]) && Number(s.ap[a]) == i
  }

  /** The block count counts the boot processor and the numbered ones, and every
      number below it is somebody's. */
  ghost predicate Dense(s: State) {
    && (BspStarted(s) ==> s.count == |NumberedSet(s)| + 1)
    && (forall i :: 1 <= i < s.count ==> Owned(s, i))
  }

  lemma {:induction false} RunDense(c: Config, s: State, who: seq<nat>)
    requires Inv(c, s) && Dense(s) && forall i :: 0 <= i < |who| ==> who[i] < |c.lapic|
    ensures Dense(Run(c, s, who))
    decreases |who|
  {
    hide Inv, Dense;
    if who != [] {
      StepOk(c, s, who[0]);
      StepDense(c, s, who[0]);
      RunDense(c, Step(c, s, who[0]), who[1..]);
    }
  }

  lemma StepDense(c: Config, s: State, who: nat)
    requires Inv(c, s) && Dense(s) && who < |c.lapic|
    ensures c.bsp < |c.lapic| == |s.ap| && Dense(Step(c, s, who))
  {
    if who == c.bsp {
      BspDense(c, s);
    } else {
      ApDense(c, s, who);
    }
  }

  lemma BspDense(c: Config, s: State)
    requires Inv(c, s) && Dense(s)
    ensures Dense(BspStep(c, s))
  {
    hide LockOk, BspOk, BlocksOk;
    var t := BspStep(c, s);
    BspMoves(c, s);
    assert forall a :: 0 <= a < |s.ap| ==>
        HasNumber(t.ap[a]) == HasNumber(s.ap[a]) && (HasNumber(s.ap[a]) ==> t.ap[a] == s.ap[a]);
    assert NumberedSet(t) == NumberedSet(s);
    if !BspStarted(s) { assert NumberedSet(s) == {}; }
    forall i | 1 <= i < t.count
      ensures Owned(t, i)
    {
      assert Owned(s, i);
    }
  }

  lemma ApDense(c: Config, s: State, a: nat)
    requires Inv(c, s) && Dense(s) && a < |s.ap|
    ensures Dense(ApStep(c, s, a))
  {
    hide NumbersOk, BlocksOk;
    var t := ApStep(c, s, a);
    assert forall b :: 0 <= b < |s.ap| && b != a ==> t.ap[b] == s.ap[b];
    if s.ap[a].Loaded? {
      assert NumberedSet(t) == NumberedSet(s) + {a};
    } else {
      assert HasNumber(t.ap[a]) == HasNumber(s.ap[a]);
      assert NumberedSet(t) == NumberedSet(s);
    }
    forall i | 1 <= i < t.count
      ensures Owned(t, i)
    {
      if i < s.count {
        assert Owned(s, i);
        var b :| 0 <= b < |s.ap| && HasNumber(s.ap[b]) && Number(s.ap[b]) == i;
        assert HasNumber(t.ap[b]) && Number(t.ap[b]) == i;
      } else {
        assert Number(t.ap[a]) == i;
      }
    }
  }

  // ----- the theorems

  ghost predicate Schedule(c: Config, who: seq<nat>) {
    forall i :: 0 <= i < |who| ==> who[i] < |c.lapic|
  }

  /** In every interleaving at most one application processor is in the locked
      section, logical numbers are different and dense, the blocks of all online
      processors are published under their own numbers, and the boot processor
      does not panic. */
  lemma BringUpSafe(c: Config, who: seq<nat>)
    requires ConfigOk(c) && Schedule(c, who)
    ensures var s := Run(c, Init(c), who);
            && (forall a, b :: 0 <= a < |s.ap| && 0 <= b < |s.ap| && Inside(s.ap[a]) && Inside(s.ap[b]) ==> a == b)
            && (forall a, b :: 0 <= a < b < |s.ap| && HasNumber(s.ap[a]) && HasNumber(s.ap[b]) ==>
                  Number(s.ap[a]) != Number(s.ap[b]))
            && (forall i :: 1 <= i < s.count ==> Owned(s, i))
            && (forall i :: 0 <= i < s.online ==> i in s.blocks && s.blocks[i].logical == i)
            && (0 in s.blocks ==> s.blocks[0].lapic == c.lapic[c.bsp])
            && (forall a :: 0 <= a < |s.ap| && HasNumber(s.ap[a]) && !s.ap[a].Counted? ==>
                  Number(s.ap[a]) in s.blocks && s.blocks[Number(s.ap[a])] == Core(Number(s.ap[a]), c.lapic[a]))
            && s.bsp != Panicked
  {
    InitOk(c);
    RunOk(c, Init(c), who);
    RunDense(c, Init(c), who);
  }

  /** The processors the boot processor starts. */
  ghost function StartedSet(c: Config): set<nat> {
    set a: nat | a < |c.lapic| && Started(c, a)
  }

  predicate Below(a: nat, n: nat) {
    a < n
  }

  ghost function UpTo(n: nat): set<nat> {
    set a: nat | a < n && Below(a, n)
  }

  lemma {:induction false} UpToSize(n: nat)
    ensures |UpTo(n)| == n
  {
    if n == 0 {
      assert UpTo(0) == {};
    } else {
      UpToSize(n - 1);
      assert UpTo(n) == UpTo(n - 1) + {n - 1};
    }
  }

  lemma StartedSize(c: Config)
    requires ConfigOk(c)
    ensures |StartedSet(c)| == Cores(c) - if c.bsp < Cores(c) then 1 else 0
  {
    UpToSize(Cores(c));
    assert StartedSet(c) == UpTo(Cores(c)) - {c.bsp};
  }

  lemma SubsetSize(a: set<nat>, b: set<nat>)
    requires a <= b
    ensures |a| <= |b| && (|a| == |b| ==> a == b)
  {
    assert |b| == |a| + |b - a| by {
      assert b == a + (b - a) && a !! (b - a);
    }
    if |a| == |b| {
      assert b - a == {};
    }
  }

  lemma NumberedStarted(c: Config, s: State)
    requires Inv(c, s)
    ensures NumberedSet(s) <= StartedSet(c)
  {
    hide LockOk, NumbersOk, BlocksOk;
  }

  /** Once the boot processor has finished bringing up several processors, as many
      are online as it wanted, it has found each of their blocks published under
      its own number and installed its handlers; and if it is one of those it
      counted, every processor it started is among them. */
  lemma BringUpComplete(c: Config, who: seq<nat>)
    requires ConfigOk(c) && Schedule(c, who) && |c.lapic| >= 2 && Run(c, Init(c), who).bsp == Finished
    ensures var s := Run(c, Init(c), who);
            && s.online >= Cores(c)
            && (forall i :: 0 <= i < Cores(c) ==> i in s.blocks && s.blocks[i].logical == i)
            && |s.handlers| == Cores(c) && (forall i :: 0 <= i < Cores(c) ==> s.handlers[i] == i)
            && (c.bsp < Cores(c) ==>
                  forall a: nat :: Started(c, a) ==>
                    && HasNumber(s.ap[a]) && Number(s.ap[a]) in s.blocks
                    && s.blocks[Number(s.ap[a])] == Core(Number(s.ap[a]), c.lapic[a]))
  {
    InitOk(c);
    RunOk(c, Init(c), who);
    RunDense(c, Init(c), who);
    var s := Run(c, Init(c), who);
    if c.bsp < Cores(c) {
      StartedSize(c);
      NumberedStarted(c, s);
      SubsetSize(NumberedSet(s), StartedSet(c));
      AllRegistered(c, s);
    }
  }

  lemma AllRegistered(c: Config, s: State)
    requires Inv(c, s) && BspStarted(s) && s.online >= Cores(c) && Dense(s) && NumberedSet(s) <= StartedSet(c)
    requires |NumberedSet(s)| <= |StartedSet(c)| == Cores(c) - 1
    requires |NumberedSet(s)| == |StartedSet(c)| ==> NumberedSet(s) == StartedSet(c)
    ensures forall a: nat :: Started(c, a) ==>
              && HasNumber(s.ap[a]) && Number(s.ap[a]) in s.blocks
              && s.blocks[Number(s.ap[a])] == Core(Number(s.ap[a]), c.lapic[a])
  {
    OnlineBelow(s, c);
    assert s.count == s.online == Cores(c);
    forall a: nat | Started(c, a)
      ensures HasNumber(s.ap[a]) && !s.ap[a].Counted?
    {
      assert a in StartedSet(c);
      assert a in NumberedSet(s);
    }
  }

  /** No more processors are online than registered. */
  lemma OnlineBelow(s: State, c: Config)
    requires Inv(c, s) && BspStarted(s)
    ensures s.online <= s.count
  {
  }

  /** The table of blocks holds everybody: the boot processor is among the
      first cores the loop looks at, or the table has room for one more. */
  predicate TableHolds(c: Config) {
    c.bsp < Cores(c) || Cores(c) < c.max
  }

  /** Then no interleaving writes outside the table. */
  lemma InTable(c: Config, who: seq<nat>)
    requires ConfigOk(c) && Schedule(c, who) && TableHolds(c)
    ensures forall i :: i in Run(c, Init(c), who).blocks ==> i < c.max
  {
    InitOk(c);
    RunOk(c, Init(c), who);
    RunDense(c, Init(c), who);
    var s := Run(c, Init(c), who);
    StartedSize(c);
    NumberedStarted(c, s);
    SubsetSize(NumberedSet(s), StartedSet(c));
  }

  /** As long as the boot processor has not finished, somebody can move, so no
      interleaving is stuck. */
  lemma NeverStuck(c: Config, who: seq<nat>) returns (a: nat)
    requires ConfigOk(c) && Schedule(c, who) && Run(c, Init(c), who).bsp != Finished
    ensures a < |c.lapic| && Step(c, Run(c, Init(c), who), a) != Run(c, Init(c), who)
  {
    InitOk(c);
    RunOk(c, Init(c), who);
    RunDense(c, Init(c), who);
    RunStarted(c, Init(c), who);
    var s := Run(c, Init(c), who);
    a := c.bsp;
    if s.bsp == Waiting && s.online < Cores(c) {
      a := CanMove(c, s);
    }
  }

  lemma CanMove(c: Config, s: State) returns (a: nat)
    requires ConfigOk(c) && Inv(c, s) && Dense(s) && s.bsp == Waiting && s.online < Cores(c) && AllStarted(c, s)
    ensures a < |c.lapic| && a != c.bsp && ApStep(c, s, a) != s
  {
    if s.lock {
      a :| 0 <= a < |s.ap| && Inside(s.ap[a]);
    } else {
      StartedSize(c);
      NumberedStarted(c, s);
      SubsetSize(NumberedSet(s), StartedSet(c));
      assert NumberedSet(s) != StartedSet(c);
      a :| a in StartedSet(c) && a !in NumberedSet(s);
    }
  }

  /** Once the boot processor waits, everybody it starts has been started. */
  ghost predicate AllStarted(c: Config, s: State)
    requires |s.ap| == |c.lapic|
  {
    && (s.bsp.Starting? ==> forall a :: 0 <= a < |s.ap| && a < s.bsp.i && Started(c, a) ==> s.ap[a] != Parked)
    && (s.bsp.Waiting? ==> forall a :: 0 <= a < |s.ap| && Started(c, a) ==> s.ap[a] != Parked)
  }

  lemma {:induction false} RunStarted(c: Config, s: State, who: seq<nat>)
    requires Inv(c, s) && |s.ap| == |c.lapic| && AllStarted(c, s) && Schedule(c, who)
    ensures |Run(c, s, who).ap| == |c.lapic| && AllStarted(c, Run(c, s, who))
    decreases |who|
  {
    hide Inv, AllStarted;
    if who != [] {
      StepOk(c, s, who[0]);
      StepStarted(c, s, who[0]);
      RunStarted(c, Step(c, s, who[0]), who[1..]);
    }
  }

  lemma StepStarted(c: Config, s: State, who: nat)
    requires Inv(c, s) && AllStarted(c, s) && who < |c.lapic|
    ensures |Step(c, s, who).ap| == |c.lapic| && AllStarted(c, Step(c, s, who))
  {
    hide LockOk, NumbersOk, BlocksOk, EarlyOk, BspOk;
    if who == c.bsp {
      BspMoves(c, s);
      BspStarts(c, s);
    } else {
      assert ApStep(c, s, who).bsp == s.bsp;
    }
  }

  lemma BspStarts(c: Config, s: State)
    requires Inv(c, s) && AllStarted(c, s)
    ensures |BspStep(c, s).ap| == |c.lapic| && AllStarted(c, BspStep(c, s))
  {
    hide LockOk, NumbersOk, BlocksOk, EarlyOk;
  }

  // ----- every run of moves ends

  function PcRank(p: Pc): nat {
    match p
    case Parked => 0
    case Entering => 1
    case Locked => 2
    case Loaded(_) => 3
    case Counted(_) => 4
    case Published(_) => 5
    case Online(_) => 6
    case Running(_) => 7
  }

  function BspRank(c: Config, p: BspPc): nat {
    match p
    case Boot => 0
    case Registered => 1
    case Numbered => 2
    case Starting(i) => 3 + Min(i, |c.lapic|)
    case Waiting => 4 + |c.lapic|
    case Checking(i) => 5 + |c.lapic| + Min(i, Cores(c))
    case Finished => 6 + |c.lapic| + Cores(c)
    case Panicked => 6 + |c.lapic| + Cores(c)
  }

  function Sum(ps: seq<Pc>): nat {
    if ps == [] then 0 else Sum(ps[..|ps| - 1]) + PcRank(ps[|ps| - 1])
  }

  lemma {:induction false} SumUpdate(ps: seq<Pc>, a: nat, p: Pc)
    requires a < |ps|
    ensures Sum(ps[a := p]) == Sum(ps) - PcRank(ps[a]) + PcRank(p)
  {
    var n := |ps| - 1;
    var q := ps[a := p];
    if a == n {
      assert q[..n] == ps[..n];
    } else {
      SumUpdate(ps[..n], a, p);
      assert q[..n] == ps[..n][a := p];
    }
  }

  lemma {:induction false} SumBound(ps: seq<Pc>)
    ensures Sum(ps) <= 7 * |ps|
  {
    if ps != [] {
      SumBound(ps[..|ps| - 1]);
    }
  }

  function Rank(c: Config, s: State): nat {
    Sum(s.ap) + BspRank(c, s.bsp)
  }

  /** A step that changes anything raises the rank. */
  lemma MoveRises(c: Config, s: State, who: nat)
    requires Inv(c, s) && who < |c.lapic| == |s.ap| && Step(c, s, who) != s
    ensures Rank(c, Step(c, s, who)) > Rank(c, s)
  {
    hide LockOk, NumbersOk, BlocksOk, EarlyOk;
    if who == c.bsp {
      BspRises(c, s);
    } else {
      ApRises(c, s, who);
    }
  }

  lemma ApRises(c: Config, s: State, a: nat)
    requires a < |c.lapic| == |s.ap| && ApStep(c, s, a) != s
    ensures Rank(c, ApStep(c, s, a)) > Rank(c, s)
  {
    hide BspRank;
    var t := ApStep(c, s, a);
    SumUpdate(s.ap, a, t.ap[a]);
    assert t.ap == s.ap[a := t.ap[a]];
  }

  lemma BspRises(c: Config, s: State)
    requires c.bsp < |c.lapic| == |s.ap| && BspStep(c, s) != s && !s.bsp.Panicked?
    requires s.bsp.Starting? ==> forall a :: s.bsp.i <= a < |s.ap| ==> s.ap[a] == Parked
    ensures Rank(c, BspStep(c, s)) > Rank(c, s)
  {
    var t := BspStep(c, s);
    if s.bsp.Starting? && s.bsp.i < |c.lapic| {
      var i := s.bsp.i;
      SumUpdate(s.ap, i, t.ap[i]);
      assert t.ap == s.ap[i := t.ap[i]];
    }
  }

  /** Every step of the schedule changes something. */
  ghost predicate AllMoves(c: Config, s: State, who: seq<nat>)
    requires c.bsp < |c.lapic| == |s.ap| && Schedule(c, who)
    decreases |who|
  {
    who == [] || (Step(c, s, who[0]) != s && AllMoves(c, Step(c, s, who[0]), who[1..]))
  }

  lemma {:induction false} MovesRaise(c: Config, s: State, who: seq<nat>)
    requires Inv(c, s) && c.bsp < |c.lapic| == |s.ap| && Schedule(c, who) && AllMoves(c, s, who)
    ensures Rank(c, s) + |who| <= Rank(c, Run(c, s, who))
    decreases |who|
  {
    hide Inv, Rank;
    if who != [] {
      StepOk(c, s, who[0]);
      MoveRises(c, s, who[0]);
      MovesRaise(c, Step(c, s, who[0]), who[1..]);
    }
  }

  /** No interleaving makes more than this many moves; as nobody is stuck before
      the boot processor has finished, letting whoever can move do so brings the
      machine up. */
  lemma BringUpEnds(c: Config, who: seq<nat>)
    requires ConfigOk(c) && Schedule(c, who) && AllMoves(c, Init(c), who)
    ensures |who| <= 8 * |c.lapic| + Cores(c) + 6
  {
    InitOk(c);
    MovesRaise(c, Init(c), who);
    RunOk(c, Init(c), who);
    SumBound(Run(c, Init(c), who).ap);
  }

  // ----- when the table does not hold everybody

  lemma {:induction false} RunConcat(c: Config, s: State, u: seq<nat>, v: seq<nat>)
    requires c.bsp < |c.lapic| == |s.ap| && Schedule(c, u) && Schedule(c, v) && Schedule(c, u + v)
    ensures Run(c, s, u + v) == Run(c, Run(c, s, u), v)
    decreases |u|
  {
    if u == [] {
      assert u + v == v;
    } else {
      assert (u + v)[0] == u[0] && (u + v)[1..] == u[1..] + v;
      RunConcat(c, Step(c, s, u[0]), u[1..], v);
    }
  }

  /** The boot processor has started the first k processors. */
  ghost predicate Launched(c: Config, s: State, k: nat) {
    && |s.ap| == |c.lapic| && s.bsp == Starting(k) && !s.lock && s.count == 1 && s.online == 1
    && forall a :: 0 <= a < |s.ap| ==> s.ap[a] == if a < k && Started(c, a) then Entering else Parked
  }

  lemma {:induction false} Launch(c: Config, k: nat) returns (who: seq<nat>)
    requires ConfigOk(c) && |c.lapic| >= 2 && k <= |c.lapic|
    ensures Schedule(c, who) && Launched(c, Run(c, Init(c), who), k)
  {
    if k == 0 {
      who := [c.bsp, c.bsp, c.bsp];
      var s0 := Init(c);
      var s1 := Step(c, s0, c.bsp);
      var s2 := Step(c, s1, c.bsp);
      var s3 := Step(c, s2, c.bsp);
      assert Run(c, s0, who) == Run(c, s1, who[1..]) == Run(c, s2, who[2..]) == Run(c, s3, who[3..]) == s3;
    } else {
      var u := Launch(c, k - 1);
      who := u + [c.bsp];
      RunConcat(c, Init(c), u, [c.bsp]);
      var s := Run(c, Init(c), u);
      assert Run(c, s, [c.bsp]) == Step(c, s, c.bsp);
    }
  }

  /** Processors 0 .. k have gone through the locked section one after another. */
  ghost predicate InOrder(c: Config, s: State, k: nat) {
    && |s.ap| == |c.lapic| && !s.lock && s.count == k + 1
    && (forall a :: k <= a < |s.ap| && Started(c, a) ==> s.ap[a] == Entering)
    && (k > 0 ==> k in s.blocks)
  }

  lemma OneInOrder(c: Config, s: State, k: nat) returns (who: seq<nat>)
    requires ConfigOk(c) && InOrder(c, s, k) && Started(c, k)
    ensures Schedule(c, who) && InOrder(c, Run(c, s, who), k + 1)
  {
    who := [k, k, k, k, k, k];
    var s1 := Step(c, s, k);
    var s2 := Step(c, s1, k);
    var s3 := Step(c, s2, k);
    var s4 := Step(c, s3, k);
    var s5 := Step(c, s4, k);
    var s6 := Step(c, s5, k);
    assert Run(c, s, who) == Run(c, s1, who[1..]) == Run(c, s2, who[2..]) == Run(c, s3, who[3..]);
    assert Run(c, s3, who[3..]) == Run(c, s4, who[4..]) == Run(c, s5, who[5..]) == Run(c, s6, who[6..]) == s6;
  }

  lemma {:induction false} AllInOrder(c: Config, k: nat) returns (who: seq<nat>)
    requires ConfigOk(c) && |c.lapic| >= 2 && k <= Cores(c) <= c.bsp
    ensures Schedule(c, who) && InOrder(c, Run(c, Init(c), who), k)
  {
    if k == 0 {
      who := Launch(c, |c.lapic|);
    } else {
      var u := AllInOrder(c, k - 1);
      var v := OneInOrder(c, Run(c, Init(c), u), k - 1);
      who := u + v;
      RunConcat(c, Init(c), u, v);
    }
  }

  /** Otherwise some interleaving writes one entry past the end of the table. */
  lemma PastTable(c: Config) returns (who: seq<nat>)
    requires ConfigOk(c) && !TableHolds(c)
    ensures Schedule(c, who) && c.max in Run(c, Init(c), who).blocks
  {
    who := AllInOrder(c, Cores(c));
  }
}
