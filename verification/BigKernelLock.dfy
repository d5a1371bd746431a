/** The recursive big kernel lock as interleaved single memory steps of any number of CPUs. */
module BigKernelLock {
  /** Where a CPU is: between calls, or at one memory access of `bkl_acquire` or `bkl_release`. */
  datatype Pc =
    | Between
    | TestOwner             // acquire: read g_bkl_owner without the lock
    | LoadDepth             // acquire, owner is me: read g_bkl_depth
    | StoreDeeper(t: int)   // ... write it back plus one
    | Spin                  // acquire: test-and-set of the spinlock
    | SetOwner              // ... taken: write g_bkl_owner
    | SetDepth              // ... write g_bkl_depth
    | LoadRelease           // release: read g_bkl_depth
    | StoreShallower(t: int) // ... write it back minus one
    | ClearOwner            // ... it reached zero: write g_bkl_owner
    | Unlock                // ... clear the spinlock

  /** The three shared variables, the position of every CPU and how many acquires each has open. */
  datatype State = State(locked: bool, owner: int, depth: int, pc: seq<Pc>, nest: seq<nat>)

  predicate Shape(s: State) { |s.pc| == |s.nest| }

  function Init(cpus: nat): State {
    State(false, -1, 0, seq(cpus, _ => Between), seq(cpus, _ => 0))
  }

  datatype Call = Acquire | Release

  /** What CPU `c` can see: the shared variables, its position and its open acquires. */
  datatype View = View(locked: bool, owner: int, depth: int, pc: Pc, nest: nat)

  function Seen(s: State, c: nat): View
    requires Shape(s) && c < |s.pc|
  {
    View(s.locked, s.owner, s.depth, s.pc[c], s.nest[c])
  }

  /** One memory access of CPU `me`; between calls it begins `call`. Calls are balanced: a release with no
      acquire open does nothing. */
  function Access(v: View, me: nat, call: Call): View {
    match v.pc
    case Between =>
      if call.Acquire? then v.(pc := TestOwner) else if v.nest > 0 then v.(pc := LoadRelease) else v
    case TestOwner => v.(pc := if v.owner == me then LoadDepth else Spin)
    case LoadDepth => v.(pc := StoreDeeper(v.depth))
    case StoreDeeper(t) => v.(depth := t + 1, pc := Between, nest := v.nest + 1)
    case Spin => if v.locked then v else v.(locked := true, pc := SetOwner)
    case SetOwner => v.(owner := me, pc := SetDepth)
    case SetDepth => v.(depth := 1, pc := Between, nest := v.nest + 1)
    case LoadRelease => v.(pc := StoreShallower(v.depth))
    case StoreShallower(t) =>
      v.(depth := t - 1, pc := if t - 1 == 0 then ClearOwner else Between, nest := if v.nest > 0 then v.nest - 1 else 0)
    case ClearOwner => v.(owner := -1, pc := Unlock)
    case Unlock => v.(locked := false, pc := Between)
  }

  function Put(s: State, c: nat, v: View): State
    requires Shape(s) && c < |s.pc|
  {
    State(v.locked, v.owner, v.depth, s.pc[c := v.pc], s.nest[c := v.nest])
  }

  /** CPU `c` makes one access. */
  function Step(s: State, c: nat, call: Call): (r: State)
    requires Shape(s) && c < |s.pc|
    ensures Shape(r) && |r.pc| == |s.pc|
  {
    Put(s, c, Access(Seen(s, c), c, call))
  }

  /** CPU `c` has the spinlock: it is inside, or on its way in or out past the test-and-set. */
  predicate Holds(s: State, c: nat)
    requires Shape(s) && c < |s.pc|
  {
    s.nest[c] > 0 || !(s.pc[c].Between? || s.pc[c].TestOwner? || s.pc[c].Spin?)
  }

  predicate HasHolder(s: State)
    requires Shape(s)
  {
    exists c :: 0 <= c < |s.pc| && Holds(s, c)
  }

  /** What a holder's position says about the shared variables. */
  predicate HolderOk(s: State, c: nat)
    requires Shape(s) && c < |s.pc|
  {
    && s.locked
    && s.owner == (if s.pc[c].SetOwner? || s.pc[c].Unlock? then -1 else c)
    && s.depth == s.nest[c]
    && (s.pc[c].LoadDepth? || s.pc[c].StoreDeeper? || s.pc[c].LoadRelease? || s.pc[c].StoreShallower? ==> s.nest[c] > 0)
    && (s.pc[c].SetOwner? || s.pc[c].SetDepth? || s.pc[c].ClearOwner? || s.pc[c].Unlock? || s.pc[c].Spin? ==>
        s.nest[c] == 0)
    && (s.pc[c].StoreDeeper? || s.pc[c].StoreShallower? ==> s.pc[c].t == s.depth)
  }

  predicate Exclusive(s: State)
    requires Shape(s)
  {
    forall c, d :: 0 <= c < |s.pc| && 0 <= d < |s.pc| && Holds(s, c) && Holds(s, d) ==> c == d
  }

  /** The inductive invariant. */
  predicate Inv(s: State) {
    && Shape(s) && Exclusive(s)
    && (forall c :: 0 <= c < |s.pc| && Holds(s, c) ==> HolderOk(s, c))
    && (!HasHolder(s) ==> !s.locked && s.owner == -1 && s.depth == 0)
  }

  lemma InitOk(cpus: nat)
    ensures Inv(Init(cpus))
  {
  }

  /** The step of a CPU that has the lock, or takes it: it stays or becomes the only holder, or lets go. */
  lemma StepHolder(s: State, c: nat, call: Call)
    requires Inv(s) && c < |s.pc|
    requires Holds(s, c) || (s.pc[c].Spin? && !s.locked)
    ensures Inv(Step(s, c, call))
  {
    var r := Step(s, c, call);
    if !Holds(s, c) {
      forall d | 0 <= d < |s.pc|
        ensures !Holds(s, d)
      {
        HolderHere(s, d);
      }
    }
    assert forall d :: 0 <= d < |s.pc| && d != c ==> r.pc[d] == s.pc[d] && r.nest[d] == s.nest[d];
    forall d | 0 <= d < |r.pc| && d != c
      ensures !Holds(r, d)
    {
      assert !Holds(s, d);
    }
    if Holds(s, c) {
      assert HolderOk(s, c);
    }
    HolderStep(s, c, call);
    if Holds(r, c) {
      assert HasHolder(r);
    } else {
      assert !HasHolder(r);
    }
  }

  /** What the stepping CPU's own position says afterwards. */
  lemma HolderStep(s: State, c: nat, call: Call)
    requires Shape(s) && c < |s.pc|
    requires (Holds(s, c) && HolderOk(s, c)) || (s.pc[c].Spin? && !Holds(s, c) && !s.locked && s.owner == -1
             && s.depth == 0)
    ensures var r := Step(s, c, call);
            if Holds(r, c) then HolderOk(r, c) else !r.locked && r.owner == -1 && r.depth == 0
  {
  }

  /** The step of a CPU without the lock, other than taking it: no shared variable changes. */
  lemma StepOther(s: State, c: nat, call: Call)
    requires Inv(s) && c < |s.pc| && !Holds(s, c) && (s.pc[c].Spin? ==> s.locked)
    ensures Inv(Step(s, c, call))
  {
    var r := Step(s, c, call);
    OwnerHolds(s, c);
    assert !Holds(r, c) && r.locked == s.locked && r.owner == s.owner && r.depth == s.depth;
    forall d | 0 <= d < |s.pc|
      ensures Holds(r, d) <==> Holds(s, d)
      ensures Holds(r, d) ==> HolderOk(r, d)
    {
      if d != c {
        assert r.pc[d] == s.pc[d] && r.nest[d] == s.nest[d];
        if Holds(s, d) {
          assert HolderOk(s, d);
        }
      }
    }
    if HasHolder(s) {
      var d :| 0 <= d < |s.pc| && Holds(s, d);
      assert Holds(r, d);
    }
  }

  /** The owner variable names only a CPU that has the lock. */
  lemma OwnerHolds(s: State, c: nat)
    requires Inv(s) && c < |s.pc|
    ensures s.owner == c ==> Holds(s, c)
  {
    if HasHolder(s) {
      var d :| 0 <= d < |s.pc| && Holds(s, d);
      HolderHere(s, d);
    }
  }

  lemma HolderHere(s: State, c: nat)
    requires Inv(s) && c < |s.pc|
    ensures Holds(s, c) ==> HolderOk(s, c)
  {
  }

  lemma StepOk(s: State, c: nat, call: Call)
    requires Inv(s) && c < |s.pc|
    ensures Inv(Step(s, c, call))
  {
    hide Inv, Step;
    InvShape(s);
    if Holds(s, c) || (s.pc[c].Spin? && !s.locked) {
      StepHolder(s, c, call);
    } else {
      StepOther(s, c, call);
    }
  }

  lemma InvShape(s: State)
    requires Inv(s)
    ensures Shape(s)
  {
  }

  /** A schedule: which CPU moves, and which call it begins if it is between calls. */
  datatype Move = Move(cpu: nat, call: Call)

  function Run(s: State, moves: seq<Move>): (r: State)
    requires Shape(s)
    ensures Shape(r) && |r.pc| == |s.pc|
    decreases |moves|
  {
    if moves == [] then s
    else Run(if moves[0].cpu < |s.pc| then Step(s, moves[0].cpu, moves[0].call) else s, moves[1..])
  }

  lemma {:induction false} RunInv(s: State, moves: seq<Move>)
    requires Inv(s)
    ensures Inv(Run(s, moves))
    decreases |moves|
  {
    hide Inv, Step;
    InvShape(s);
    if moves != [] {
      if moves[0].cpu < |s.pc| {
        StepOk(s, moves[0].cpu, moves[0].call);
        RunInv(Step(s, moves[0].cpu, moves[0].call), moves[1..]);
      } else {
        RunInv(s, moves[1..]);
      }
    }
  }

  /** CPU `c` is inside the kernel: it has an acquire open. */
  predicate IsInside(s: State, c: nat)
    requires Shape(s) && c < |s.pc|
  {
    s.nest[c] > 0
  }

  /** For any number of CPUs and any interleaving: at most one is inside, the depth counts its open
      acquires, and the unlocked owner test succeeds exactly on the CPU that is inside. */
  lemma LockSafe(cpus: nat, moves: seq<Move>, c: nat, d: nat)
    requires c < cpus && d < cpus
    ensures var s := Run(Init(cpus), moves);
            && (IsInside(s, c) && IsInside(s, d) ==> c == d)
            && (IsInside(s, c) ==> s.locked && s.owner == c && s.depth == s.nest[c])
            && (s.pc[c].TestOwner? ==> (s.owner == c <==> IsInside(s, c)))
  {
    hide Run;
    InitOk(cpus);
    RunInv(Init(cpus), moves);
    var s := Run(Init(cpus), moves);
    if IsInside(s, c) {
      assert Holds(s, c) && HolderOk(s, c);
    }
    if IsInside(s, d) {
      assert Holds(s, d);
    }
    OwnerHolds(s, c);
  }

  /** A CPU never waits for itself, and when nobody is in or on the way the lock is free again. */
  lemma NoSelfWait(cpus: nat, moves: seq<Move>)
    ensures var s := Run(Init(cpus), moves);
            && (forall c :: 0 <= c < cpus && s.pc[c].Spin? ==> !Holds(s, c))
            && (s.locked <==> HasHolder(s))
            && (!HasHolder(s) ==> s.owner == -1 && s.depth == 0)
  {
    hide Run;
    InitOk(cpus);
    RunInv(Init(cpus), moves);
    var s := Run(Init(cpus), moves);
    forall c | 0 <= c < cpus && s.pc[c].Spin?
      ensures !Holds(s, c)
    {
      HolderHere(s, c);
    }
    if HasHolder(s) {
      var c :| 0 <= c < |s.pc| && Holds(s, c);
      assert HolderOk(s, c);
    }
  }

  /** Every single step either leaves all nesting counts alone, or opens one acquire while every other
      CPU is outside, or closes one: an atomic recursive lock. */
  lemma StepAtomic(s: State, c: nat, call: Call)
    requires Inv(s) && c < |s.pc|
    ensures var r := Step(s, c, call);
            || r.nest == s.nest
            || (r.nest == s.nest[c := s.nest[c] + 1] && forall d :: 0 <= d < |s.pc| && d != c ==> s.nest[d] == 0)
            || (s.nest[c] > 0 && r.nest == s.nest[c := s.nest[c] - 1])
  {
    var r := Step(s, c, call);
    if r.nest != s.nest {
      assert Holds(s, c) && HolderOk(s, c);
      forall d | 0 <= d < |s.pc| && d != c
        ensures s.nest[d] == 0
      {
        assert !Holds(s, d);
      }
    }
  }

  // ---- progress ----

  /** The test-and-set takes the lock whenever nobody has it: no deadlock on a free lock. */
  lemma SpinTakes(s: State, c: nat, call: Call)
    requires Inv(s) && c < |s.pc| && s.pc[c].Spin? && !HasHolder(s)
    ensures Holds(Step(s, c, call), c) && Step(s, c, call).locked
  {
  }

  /** At most so many accesses until the call returns. */
  function Left(pc: Pc): nat {
    match pc
    case Between => 0
    case TestOwner | LoadRelease => 4
    case Spin | StoreShallower(_) => 3
    case LoadDepth | SetOwner | ClearOwner => 2
    case StoreDeeper(_) | SetDepth | Unlock => 1
  }

  /** Every access brings a call closer to its return, except of a CPU that waits while another one has the lock;
      and nobody else moves it. */
  lemma StepProgress(s: State, c: nat, d: nat, call: Call)
    requires Inv(s) && c < |s.pc| && d < |s.pc| && !s.pc[c].Between?
    ensures d != c ==> Step(s, d, call).pc[c] == s.pc[c]
    ensures Left(Step(s, c, call).pc[c]) < Left(s.pc[c]) <==> !(s.pc[c].Spin? && HasHolder(s))
  {
    if s.locked && !HasHolder(s) {
      assert false;
    }
    if HasHolder(s) {
      var h :| 0 <= h < |s.pc| && Holds(s, h);
      HolderHere(s, h);
    }
  }

  /** CPU `c` begins `call` and nobody else moves for so many turns. */
  function Alone(c: nat, call: Call, turns: nat): seq<Move> { seq(turns, _ => Move(c, call)) }

  function Accesses(v: View, me: nat, call: Call, turns: nat): View
    decreases turns
  {
    if turns == 0 then v else Accesses(Access(v, me, call), me, call, turns - 1)
  }

  lemma {:induction false} RunAlone(s: State, c: nat, call: Call, turns: nat)
    requires Shape(s) && c < |s.pc|
    ensures Run(s, Alone(c, call, turns)) == Put(s, c, Accesses(Seen(s, c), c, call, turns))
    decreases turns
  {
    hide Access;
    if turns == 0 {
      assert s.pc[c := s.pc[c]] == s.pc && s.nest[c := s.nest[c]] == s.nest;
    } else {
      assert Alone(c, call, turns)[1..] == Alone(c, call, turns - 1);
      var r := Step(s, c, call);
      RunAlone(r, c, call, turns - 1);
      var v := Accesses(Seen(r, c), c, call, turns - 1);
      assert r.pc[c := v.pc] == s.pc[c := v.pc] && r.nest[c := v.nest] == s.nest[c := v.nest];
    }
  }

  /** The views of a CPU during one call, each an access after the one before. */
  predicate IsTrail(vs: seq<View>, me: nat, call: Call) {
    forall i :: 0 < i < |vs| ==> vs[i] == Access(vs[i - 1], me, call)
  }

  lemma {:induction false} TrailEnds(vs: seq<View>, me: nat, call: Call)
    requires |vs| > 0 && IsTrail(vs, me, call)
    ensures Accesses(vs[0], me, call, |vs| - 1) == vs[|vs| - 1]
    decreases |vs|
  {
    hide Access;
    if |vs| > 1 {
      assert vs[1] == Access(vs[0], me, call);
      TrailEnds(vs[1..], me, call);
    }
  }

  /** `bkl_acquire` on a free lock returns after five accesses with the lock taken, owned once. */
  lemma AcquireFree(s: State, c: nat)
    requires Inv(s) && c < |s.pc| && s.pc[c].Between? && !HasHolder(s)
    ensures Run(s, Alone(c, Acquire, 5)) == State(true, c, 1, s.pc, s.nest[c := 1])
  {
    hide Run, Alone, Accesses, Step;
    assert !Holds(s, c);
    RunAlone(s, c, Acquire, 5);
    TrailEnds([View(false, -1, 0, Between, 0), View(false, -1, 0, TestOwner, 0), View(false, -1, 0, Spin, 0),
               View(true, -1, 0, SetOwner, 0), View(true, c, 0, SetDepth, 0), View(true, c, 1, Between, 1)],
              c, Acquire);
    assert s.pc[c := Between] == s.pc;
  }

  /** Inside, it returns after four with the depth raised. */
  lemma AcquireInside(s: State, c: nat)
    requires Inv(s) && c < |s.pc| && s.pc[c].Between? && IsInside(s, c)
    ensures Run(s, Alone(c, Acquire, 4)) == s.(depth := s.depth + 1, nest := s.nest[c := s.nest[c] + 1])
  {
    hide Run, Alone, Accesses, Step;
    assert Holds(s, c) && HolderOk(s, c);
    RunAlone(s, c, Acquire, 4);
    var n := s.nest[c];
    TrailEnds([View(true, c, n, Between, n), View(true, c, n, TestOwner, n), View(true, c, n, LoadDepth, n),
               View(true, c, n, StoreDeeper(n), n), View(true, c, n + 1, Between, n + 1)], c, Acquire);
    assert s.pc[c := Between] == s.pc;
  }

  /** `bkl_release` lowers the depth in three accesses while acquires stay open. */
  lemma ReleaseInside(s: State, c: nat)
    requires Inv(s) && c < |s.pc| && s.pc[c].Between? && s.nest[c] > 1
    ensures Run(s, Alone(c, Release, 3)) == s.(depth := s.depth - 1, nest := s.nest[c := s.nest[c] - 1])
  {
    hide Run, Alone, Accesses, Step;
    assert Holds(s, c) && HolderOk(s, c);
    RunAlone(s, c, Release, 3);
    var n := s.nest[c];
    TrailEnds([View(true, c, n, Between, n), View(true, c, n, LoadRelease, n), View(true, c, n, StoreShallower(n), n),
               View(true, c, n - 1, Between, n - 1)], c, Release);
    assert s.pc[c := Between] == s.pc;
  }

  /** When the last one closes it frees the lock in five. */
  lemma ReleaseLast(s: State, c: nat)
    requires Inv(s) && c < |s.pc| && s.pc[c].Between? && s.nest[c] == 1
    ensures Run(s, Alone(c, Release, 5)) == State(false, -1, 0, s.pc, s.nest[c := 0])
  {
    hide Run, Alone, Accesses, Step;
    assert Holds(s, c) && HolderOk(s, c);
    RunAlone(s, c, Release, 5);
    TrailEnds([View(true, c, 1, Between, 1), View(true, c, 1, LoadRelease, 1), View(true, c, 1, StoreShallower(1), 1),
               View(true, c, 0, ClearOwner, 0), View(true, -1, 0, Unlock, 0), View(false, -1, 0, Between, 0)],
              c, Release);
    assert s.pc[c := Between] == s.pc;
  }

  // ---- the holder is alone ----

  lemma SeenAfter(s: State, c: nat, call: Call)
    requires Shape(s) && c < |s.pc|
    ensures Seen(Step(s, c, call), c) == Access(Seen(s, c), c, call)
  {
    hide Access;
  }

  lemma OthersUnseen(s: State, c: nat, d: nat, call: Call)
    requires Inv(s) && c < |s.pc| && d < |s.pc| && c != d && Holds(s, c)
    ensures Seen(Step(s, d, call), c) == Seen(s, c)
  {
    assert !Holds(s, d);
    OwnerHolds(s, d);
    assert HolderOk(s, c);
  }

  /** CPU `c` has the lock before every move of another CPU. */
  predicate KeepsLock(s: State, c: nat, moves: seq<Move>)
    requires Shape(s) && c < |s.pc|
    decreases |moves|
  {
    moves == [] ||
    (var m := moves[0];
     (m.cpu == c || Holds(s, c)) && KeepsLock(if m.cpu < |s.pc| then Step(s, m.cpu, m.call) else s, c, moves[1..]))
  }

  /** The moves of CPU `c` in a schedule. */
  function Own(moves: seq<Move>, c: nat): seq<Move>
    decreases |moves|
  {
    if moves == [] then [] else (if moves[0].cpu == c then [moves[0]] else []) + Own(moves[1..], c)
  }

  /** Whatever the others do meanwhile, the CPU that has the lock gets as far as it would alone. */
  lemma {:induction false} HolderAlone(s: State, t: State, c: nat, moves: seq<Move>)
    requires Inv(s) && Shape(t) && c < |s.pc| && c < |t.pc| && Seen(s, c) == Seen(t, c) && KeepsLock(s, c, moves)
    ensures Seen(Run(s, moves), c) == Seen(Run(t, Own(moves, c)), c)
    decreases |moves|
  {
    hide Inv, Step, Seen, Holds;
    InvShape(s);
    if moves != [] {
      var m := moves[0];
      if m.cpu == c {
        StepOk(s, c, m.call);
        SeenAfter(s, c, m.call);
        SeenAfter(t, c, m.call);
        HolderAlone(Step(s, c, m.call), Step(t, c, m.call), c, moves[1..]);
        assert ([m] + Own(moves[1..], c))[1..] == Own(moves[1..], c);
      } else {
        assert [] + Own(moves[1..], c) == Own(moves[1..], c);
        if m.cpu < |s.pc| {
          OthersUnseen(s, c, m.cpu, m.call);
          StepOk(s, m.cpu, m.call);
          HolderAlone(Step(s, m.cpu, m.call), t, c, moves[1..]);
        } else {
          HolderAlone(s, t, c, moves[1..]);
        }
      }
    }
  }
}
