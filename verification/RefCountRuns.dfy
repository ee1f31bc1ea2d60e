/** What whole operations on references do, whatever other threads do meanwhile (oidn/common/ref.h, and retain, release
    and the making of objects in oidn/core/api.cpp). */
module RefCountRuns {
  import opened Options
  import opened RefCount

  /** Who takes a step. */
  function Actor(step: Step): Option<nat> {
    match step
    case NewSlot => None
    case BeginCopy(t, _, _) => Some(t)
    case BeginMove(t, _, _) => Some(t)
    case BeginClear(t, _) => Some(t)
    case BeginNew(t, _, _) => Some(t)
    case Inc(t) => Some(t)
    case Dec(t) => Some(t)
    case Store(t) => Some(t)
    case Destroy(t) => Some(t)
  }

  predicate Begins(step: Step) {
    step.BeginCopy? || step.BeginMove? || step.BeginClear? || step.BeginNew?
  }

  /** Step i begins an operation of thread t that is not finished before state j. */
  ghost predicate Working(states: seq<State>, steps: seq<Step>, t: nat, i: nat, j: nat) {
    && Run(states, steps) && i < |steps| && i < j < |states| && Begins(steps[i]) && Actor(steps[i]) == Some(t)
    && forall k :: i < k < j ==> t < |states[k].threads| && !states[k].threads[t].pc.Idle?
  }

  // ----- who changes a pointer

  /** The slot is one that the operation of thread t writes, or the device reference of an object that it makes. */
  predicate MayChange(s: State, t: nat, k: nat) {
    t < |s.threads| &&
    var pc := s.threads[t].pc;
    Writes(pc, k) || (pc.New? && pc.phase == 0 && pc.o < |s.objs| && s.objs[pc.o].member == Some(k))
  }

  /** A pointer changes only by a step of a thread that may change it. */
  lemma OnlyItsOwn(s: State, step: Step, r: State, k: nat)
    requires Next(s, step, r) && k < |s.slots|
    ensures k < |r.slots|
    ensures r.slots[k].ptr != s.slots[k].ptr ==> Actor(step).Some? && MayChange(s, Actor(step).value, k)
  {
  }

  /** As long as no thread that may change it takes a step, a reference keeps its pointer. */
  lemma {:induction false} Untouched(states: seq<State>, steps: seq<Step>, i: nat, j: nat, k: nat)
    requires Run(states, steps) && i <= j < |states| && k < |states[i].slots|
    requires forall m :: i <= m < j ==> Actor(steps[m]).Some? ==> !MayChange(states[m], Actor(steps[m]).value, k)
    ensures k < |states[j].slots| && states[j].slots[k].ptr == states[i].slots[k].ptr
    decreases j
  {
    hide Next, Init, MayChange;
    if i < j {
      Untouched(states, steps, i, j - 1, k);
      assert Next(states[j - 1], steps[j - 1], states[j]);
      OnlyItsOwn(states[j - 1], steps[j - 1], states[j], k);
    }
  }

  // ----- what an operation does

  /** The reference stands for the object with a unit of its count, or it is null. */
  predicate Refers(s: State, k: nat, p: Option<nat>) {
    k < |s.slots| && s.slots[k].ptr == p && (p.Some? ==> s.slots[k].owns)
  }

  /** What the operation that begins with step in state s has done in state r. */
  predicate Effect(s: State, step: Step, r: State) {
    match step
    case BeginCopy(_, dst, src) =>
      src < |s.slots| && Refers(r, dst, s.slots[src].ptr) && Refers(r, src, s.slots[src].ptr)
    case BeginMove(_, dst, src) =>
      src < |s.slots| && Refers(r, src, None) && (dst != src ==> Refers(r, dst, s.slots[src].ptr))
    case BeginClear(_, dst) => Refers(r, dst, None)
    case BeginNew(_, dst, from) =>
      && Refers(r, dst, Some(|s.objs|)) && |s.objs| < |r.objs|
      && r.objs[|s.objs|].member == (if from.Some? then Some(|s.slots|) else None)
      && (from.Some? ==>
            && from.value < |s.slots| && Refers(r, |s.slots|, s.slots[from.value].ptr)
            && Refers(r, from.value, s.slots[from.value].ptr))
    case _ => false
  }

  /** What is known while thread t is at work. */
  ghost predicate Midway(s: State, step: Step, r: State, t: nat) {
    && t < |r.threads|
    && var pc := r.threads[t].pc;
       match step
       case BeginCopy(_, dst, src) =>
         && pc.CopyTo? && pc.dst == dst && pc.src == src
         && src < |s.slots| && src < |r.slots| && r.slots[src].ptr == s.slots[src].ptr
       case BeginMove(_, dst, src) =>
         && pc.MoveTo? && pc.dst == dst && pc.src == src
         && src < |s.slots| && src < |r.slots| && r.slots[src].ptr == s.slots[src].ptr
       case BeginClear(_, dst) => pc.Clear? && pc.dst == dst
       case BeginNew(_, dst, from) =>
         && pc.New? && pc.dst == dst && pc.o == |s.objs| < |r.objs| && pc.from == from
         && r.objs[|s.objs|].member == (if from.Some? then Some(|s.slots|) else None)
         && (from.Some? ==>
               && from.value < |s.slots| < |r.slots| && r.slots[from.value].ptr == s.slots[from.value].ptr
               && (pc.phase == 1 ==> r.slots[|s.slots|].ptr == s.slots[from.value].ptr))
       case _ => false
  }

  lemma Begun(s: State, step: Step, r: State, t: nat)
    requires Next(s, step, r) && Begins(step) && Actor(step) == Some(t)
    ensures Midway(s, step, r, t) && !r.threads[t].pc.Idle?
  {
  }

  /** The slot of the device reference that a thread makes. */
  predicate Making(s: State, t: nat, k: nat) {
    && t < |s.threads| && s.threads[t].pc.New? && s.threads[t].pc.o < |s.objs|
       && s.objs[s.threads[t].pc.o].member == Some(k)
  }

  lemma UsedIsPlain(s: State, t: nat, k: nat)
    requires Inv(s) && t < |s.threads| && Uses(s.threads[t].pc, k)
    ensures Plain(s, k)
  {
    assert ThreadOk(s, t);
  }

  lemma MadeIsMember(s: State, t: nat, k: nat)
    requires Inv(s) && Making(s, t, k)
    ensures !Plain(s, k)
  {
    assert MemberOk(s, s.threads[t].pc.o);
  }

  lemma MadeByOne(s: State, t: nat, u: nat, k: nat)
    requires Inv(s) && Making(s, t, k) && Making(s, u, k)
    ensures t == u
  {
    assert MemberOk(s, s.threads[t].pc.o);
    OneMaker(s, t, u, s.threads[t].pc.o);
  }

  /** What other threads leave alone. */
  lemma OthersKeep(s: State, step: Step, r: State, t: nat, k: nat)
    requires Inv(s) && Next(s, step, r) && t < |s.threads| && Actor(step) != Some(t) && k < |s.slots|
    requires Uses(s.threads[t].pc, k) || Making(s, t, k)
    ensures k < |r.slots| && r.slots[k].ptr == s.slots[k].ptr
  {
    hide Inv, Next, Plain;
    OnlyItsOwn(s, step, r, k);
    if r.slots[k].ptr != s.slots[k].ptr {
      var u := Actor(step).value;
      if Writes(s.threads[u].pc, k) {
        assert Locked(s) by { LockedIs(s); }
        NotBoth(s, u, t, k);
        UsedIsPlain(s, u, k);
        MadeIsMember(s, t, k);
      } else if Uses(s.threads[t].pc, k) {
        UsedIsPlain(s, t, k);
        MadeIsMember(s, u, k);
      } else {
        MadeByOne(s, t, u, k);
      }
    }
  }

  lemma LockedIs(s: State)
    requires Inv(s)
    ensures Locked(s)
  {
  }

  /** What no step of another thread changes. */
  ghost predicate Stays(s: State, r: State, t: nat)
    requires t < |s.threads|
  {
    && |r.threads| == |s.threads| && r.threads[t] == s.threads[t] && |r.slots| >= |s.slots| && |r.objs| >= |s.objs|
    && forall o :: 0 <= o < |s.objs| ==> r.objs[o].member == s.objs[o].member
  }

  lemma IncStays(s: State, u: nat, r: State, t: nat)
    requires Next(s, Inc(u), r) && t < |s.threads| && u != t
    ensures Stays(s, r, t)
  {
  }

  lemma DecStays(s: State, u: nat, r: State, t: nat)
    requires (Next(s, Dec(u), r) || Next(s, Destroy(u), r)) && t < |s.threads| && u != t
    ensures Stays(s, r, t)
  {
  }

  lemma OthersStay(s: State, step: Step, r: State, t: nat)
    requires Next(s, step, r) && t < |s.threads| && Actor(step) != Some(t)
    ensures |r.threads| == |s.threads| && r.threads[t] == s.threads[t] && |r.slots| >= |s.slots| && |r.objs| >= |s.objs|
    ensures forall o :: 0 <= o < |s.objs| ==> r.objs[o].member == s.objs[o].member
  {
    hide IncStep, DecStep, DestroyStep;
    match step {
      case Inc(u) => IncStays(s, u, r, t);
      case Dec(u) => DecStays(s, u, r, t);
      case Destroy(u) => DecStays(s, u, r, t);
      case _ =>
    }
  }

  lemma OtherMidway(s0: State, step0: Step, s: State, step: Step, r: State, t: nat)
    requires Midway(s0, step0, s, t) && Inv(s) && Next(s, step, r) && Actor(step) != Some(t)
    ensures Midway(s0, step0, r, t) && r.threads[t].pc == s.threads[t].pc
  {
    hide Inv, Next;
    OthersStay(s, step, r, t);
    match step0 {
      case NewSlot =>
      case Inc(_) =>
      case Dec(_) =>
      case Store(_) =>
      case Destroy(_) =>
      case BeginCopy(_, dst, src) => OthersKeep(s, step, r, t, src);
      case BeginMove(_, dst, src) => OthersKeep(s, step, r, t, src);
      case BeginClear(_, dst) =>
      case BeginNew(_, dst, from) =>
        if from.Some? {
          OthersKeep(s, step, r, t, from.value);
          if s.threads[t].pc.phase == 1 {
            OthersKeep(s, step, r, t, |s0.slots|);
          }
        }
    }
  }

  lemma DestroyKeeps(s: State, r: State, t: nat)
    requires Next(s, Destroy(t), r)
    ensures |r.threads| == |s.threads| && r.threads[t].pc == s.threads[t].pc && |r.slots| == |s.slots|
            && |r.objs| == |s.objs|
    ensures forall k :: 0 <= k < |s.slots| ==> r.slots[k].ptr == s.slots[k].ptr
    ensures forall o :: 0 <= o < |s.objs| ==> r.objs[o].member == s.objs[o].member
  {
  }

  lemma DecKeeps(s: State, r: State, t: nat)
    requires Next(s, Dec(t), r)
    ensures t < |s.threads| == |r.threads| && BeforeDec(s.threads[t].pc) && r.threads[t].pc == AfterDec(s.threads[t].pc)
    ensures |r.slots| == |s.slots|
    ensures forall k :: 0 <= k < |s.slots| ==> r.slots[k].ptr == s.slots[k].ptr
  {
    DecIs(s, t, r);
  }

  lemma OwnMidway(s0: State, step0: Step, s: State, step: Step, r: State, t: nat)
    requires Midway(s0, step0, s, t) && Inv(s) && Next(s, step, r) && Actor(step) == Some(t) && !s.threads[t].pc.Idle?
    ensures t < |r.threads| && if r.threads[t].pc.Idle? then Effect(s0, step0, r) else Midway(s0, step0, r, t)
  {
    assert ThreadOk(s, t);
    if step.Destroy? {
      hide Next, Inv;
      DestroyKeeps(s, r, t);
    } else if step.Dec? {
      hide Next, Inv;
      DecKeeps(s, r, t);
    } else if step.Store? {
      StoreEffect(s0, step0, s, r, t);
    } else if step.Inc? {
      IncEffect(s0, step0, s, r, t);
    }
  }

  lemma StoreEffect(s0: State, step0: Step, s: State, r: State, t: nat)
    requires Midway(s0, step0, s, t) && Inv(s) && Next(s, Store(t), r)
    ensures t < |r.threads| && r.threads[t].pc.Idle? && Effect(s0, step0, r)
  {
    assert ThreadOk(s, t);
    if step0.BeginCopy? || step0.BeginMove? {
      if step0.dst != step0.src {
        UsedSettled(s, t, step0.src);
      }
    }
  }

  lemma IncEffect(s0: State, step0: Step, s: State, r: State, t: nat)
    requires Midway(s0, step0, s, t) && Inv(s) && Next(s, Inc(t), r)
    ensures t < |r.threads| && if r.threads[t].pc.Idle? then Effect(s0, step0, r) else Midway(s0, step0, r, t)
  {
    assert ThreadOk(s, t);
    var pc := s.threads[t].pc;
    if pc.New? && pc.from.Some? {
      UsedSettled(s, t, pc.from.value);
      assert MemberOk(s, pc.o);
    }
  }

  lemma {:induction false} WorkKept(states: seq<State>, steps: seq<Step>, t: nat, i: nat, j: nat)
    requires Working(states, steps, t, i, j)
    ensures t < |states[j].threads| && (states[j].threads[t].pc.Idle? ==> Effect(states[i], steps[i], states[j]))
    ensures !states[j].threads[t].pc.Idle? ==> Midway(states[i], steps[i], states[j], t)
    decreases j
  {
    hide Next, Init, Inv, Effect, Midway;
    assert Next(states[j - 1], steps[j - 1], states[j]);
    if j == i + 1 {
      Begun(states[i], steps[i], states[j], t);
      MidwayThread(states[i], steps[i], states[j], t);
    } else {
      WorkKept(states, steps, t, i, j - 1);
      RunInv(states, steps, j - 1);
      if Actor(steps[j - 1]) == Some(t) {
        OwnMidway(states[i], steps[i], states[j - 1], steps[j - 1], states[j], t);
      } else {
        OtherMidway(states[i], steps[i], states[j - 1], steps[j - 1], states[j], t);
        MidwayThread(states[i], steps[i], states[j], t);
      }
    }
  }

  lemma MidwayThread(s0: State, step0: Step, s: State, t: nat)
    requires Midway(s0, step0, s, t)
    ensures t < |s.threads| && !s.threads[t].pc.Idle?
  {
  }

  /** When an operation is finished, it has done what it is for. A copy leaves both references at what the source
      referred to at the beginning; a move leaves the destination there and the source null; a clear leaves null; a
      new object has its first reference, and a buffer refers to its device. */
  lemma OperationDone(states: seq<State>, steps: seq<Step>, t: nat, i: nat, j: nat)
    requires Working(states, steps, t, i, j) && t < |states[j].threads| && states[j].threads[t].pc.Idle?
    ensures match steps[i]
            case BeginCopy(_, dst, src) =>
              src < |states[i].slots| && Refers(states[j], dst, states[i].slots[src].ptr)
              && Refers(states[j], src, states[i].slots[src].ptr)
            case BeginMove(_, dst, src) =>
              src < |states[i].slots| && Refers(states[j], src, None)
              && (dst != src ==> Refers(states[j], dst, states[i].slots[src].ptr))
            case BeginClear(_, dst) => Refers(states[j], dst, None)
            case BeginNew(_, dst, from) =>
              && Refers(states[j], dst, Some(|states[i].objs|))
              && (from.Some? ==>
                    && |states[i].objs| < |states[j].objs| && from.value < |states[i].slots|
                    && states[j].objs[|states[i].objs|].member == Some(|states[i].slots|)
                    && Refers(states[j], |states[i].slots|, states[i].slots[from.value].ptr))
            case _ => true
  {
    WorkKept(states, steps, t, i, j);
  }

  // ----- every operation gets on, and ends

  /** A thread that is not at rest can always take a step. */
  lemma CanGoOn(s: State, t: nat) returns (step: Step, r: State)
    requires Inv(s) && t < |s.threads| && !Quiet(s.threads[t])
    ensures Actor(step) == Some(t) && Next(s, step, r)
  {
    assert ThreadOk(s, t);
    var th := s.threads[t];
    if th.todo != [] {
      var o := th.todo[0];
      step := Destroy(t);
      r := Destroyed(s, t, o);
      if s.objs[o].member.Some? {
        assert MemberOk(s, o) && SlotOk(s, s.objs[o].member.value);
        r := Release(r, t, s.objs[o].member.value);
      }
    } else if BeforeDec(th.pc) {
      assert SlotOk(s, th.pc.dst);
      step := Dec(t);
      r := SetPc(Release(s, t, th.pc.dst), t, AfterDec(th.pc));
    } else {
      step, r := NextOf(s, t);
    }
  }

  lemma NextOf(s: State, t: nat) returns (step: Step, r: State)
    requires Inv(s) && t < |s.threads| && !Quiet(s.threads[t]) && s.threads[t].todo == [] && !BeforeDec(s.threads[t].pc)
    ensures Actor(step) == Some(t) && Next(s, step, r)
  {
    assert ThreadOk(s, t);
    step := if (s.threads[t].pc.CopyTo? && s.threads[t].pc.phase == 0) || s.threads[t].pc.New? then Inc(t) else Store(t);
    match s.threads[t].pc {
      case CopyTo(dst, src, phase) =>
        assert SlotOk(s, src);
        if phase == 2 {
          r := s.(slots := s.slots[dst := Slot(s.slots[src].ptr, s.threads[t].temp.Some?, false)],
                  threads := s.threads[t := s.threads[t].(pc := Idle, temp := None)]);
        } else if s.slots[src].ptr.Some? {
          var o := s.slots[src].ptr.value;
          r := Plus(s, o).(threads := s.threads[t := s.threads[t].(pc := CopyTo(dst, src, 1), temp := Some(o))]);
        } else {
          r := SetPc(s, t, CopyTo(dst, src, 1));
        }
      case MoveTo(dst, src, phase) =>
        r := SetPc(s, t, Idle).(slots := s.slots[dst := s.slots[src]][src := NULL]);
      case Clear(dst, phase) =>
        r := SetPc(s, t, Idle).(slots := s.slots[dst := NULL]);
      case New(dst, o, from, phase) =>
        if phase == 1 {
          r := SetPc(Plus(s, o), t, Idle).(slots := s.slots[dst := Slot(Some(o), true, false)]);
        } else {
          assert SlotOk(s, from.value);
          if s.slots[from.value].ptr.Some? {
            var d := s.slots[from.value].ptr.value;
            r := SetPc(Plus(s, d), t, New(dst, o, from, 1)).(
              slots := s.slots[s.objs[o].member.value := Slot(Some(d), true, true)]);
          } else {
            r := SetPc(s, t, New(dst, o, from, 1));
          }
        }
    }
  }

  /** How many steps an operation has left, apart from destroying objects. */
  function Left(pc: Pc): nat {
    match pc
    case Idle => 0
    case CopyTo(_, _, phase) => if phase <= 3 then 3 - phase else 0
    case MoveTo(_, _, phase) => if phase <= 2 then 2 - phase else 0
    case Clear(_, phase) => if phase <= 2 then 2 - phase else 0
    case New(_, _, _, phase) => if phase <= 2 then 2 - phase else 0
  }

  function DestroyedOf(objs: seq<Obj>): nat {
    if objs == [] then 0 else DestroyedOf(objs[..|objs| - 1]) + objs[|objs| - 1].destroyed
  }

  lemma {:induction false} DestroyedUpdate(objs: seq<Obj>, o: nat, x: Obj)
    requires o < |objs|
    ensures DestroyedOf(objs[o := x]) == DestroyedOf(objs) - objs[o].destroyed + x.destroyed
  {
    var n := |objs| - 1;
    if o == n {
      assert objs[o := x][..n] == objs[..n];
    } else {
      assert objs[o := x][..n] == objs[..n][o := x];
      DestroyedUpdate(objs[..n], o, x);
    }
  }

  lemma DestroyedAppend(objs: seq<Obj>, x: Obj)
    ensures DestroyedOf(objs + [x]) == DestroyedOf(objs) + x.destroyed
  {
    assert (objs + [x])[..|objs|] == objs;
  }

  lemma ReleaseDestroys(s: State, t: nat, k: nat)
    requires t < |s.threads| && Releasable(s, k)
    ensures DestroyedOf(Release(s, t, k).objs) == DestroyedOf(s.objs)
  {
    if s.slots[k].ptr.Some? {
      var o := s.slots[k].ptr.value;
      DestroyedUpdate(s.objs, o, s.objs[o].(count := Minus(s.objs[o].count)));
    }
  }

  /** Each step either destroys an object, or leaves the number of those destroyed as it is and, within an operation,
      brings its thread nearer to the end. */
  lemma StepCosts(s: State, step: Step, r: State)
    requires Inv(s) && Next(s, step, r)
    ensures DestroyedOf(r.objs) == DestroyedOf(s.objs) + if step.Destroy? then 1 else 0
    ensures step.Inc? || step.Dec? || step.Store? ==>
              step.t < |s.threads| == |r.threads| && Left(r.threads[step.t].pc) + 1 == Left(s.threads[step.t].pc)
    ensures step.Destroy? ==> step.t < |s.threads| == |r.threads| && r.threads[step.t].pc == s.threads[step.t].pc
  {
    hide Next, Inv, DestroyedOf;
    match step {
      case Inc(t) => IncCosts(s, t, r);
      case Dec(t) => DecCosts(s, t, r);
      case Store(t) => StoreCosts(s, t, r);
      case Destroy(t) => DestroyCosts(s, t, r);
      case _ => BeginCosts(s, step, r);
    }
  }

  lemma BeginCosts(s: State, step: Step, r: State)
    requires Next(s, step, r) && (Begins(step) || step.NewSlot?)
    ensures DestroyedOf(r.objs) == DestroyedOf(s.objs)
  {
    hide DestroyedOf;
    if step.BeginNew? {
      DestroyedAppend(s.objs, Obj(0, 0, if step.from.Some? then Some(|s.slots|) else None));
    }
  }

  lemma DecCosts(s: State, t: nat, r: State)
    requires Inv(s) && Next(s, Dec(t), r)
    ensures DestroyedOf(r.objs) == DestroyedOf(s.objs)
    ensures t < |s.threads| == |r.threads| && Left(r.threads[t].pc) + 1 == Left(s.threads[t].pc)
  {
    hide DestroyedOf;
    DecIs(s, t, r);
    ReleaseDestroys(s, t, s.threads[t].pc.dst);
  }

  lemma StoreCosts(s: State, t: nat, r: State)
    requires Inv(s) && Next(s, Store(t), r)
    ensures DestroyedOf(r.objs) == DestroyedOf(s.objs)
    ensures t < |s.threads| == |r.threads| && Left(r.threads[t].pc) + 1 == Left(s.threads[t].pc)
  {
    hide DestroyedOf, Inv;
  }

  lemma DestroyCosts(s: State, t: nat, r: State)
    requires Next(s, Destroy(t), r)
    ensures DestroyedOf(r.objs) == DestroyedOf(s.objs) + 1
    ensures t < |s.threads| == |r.threads| && r.threads[t].pc == s.threads[t].pc
  {
    hide DestroyedOf;
    var o := s.threads[t].todo[0];
    DestroyedUpdate(s.objs, o, s.objs[o].(destroyed := s.objs[o].destroyed + 1));
    if s.objs[o].member.Some? {
      ReleaseDestroys(Destroyed(s, t, o), t, s.objs[o].member.value);
    }
  }

  lemma PlusDestroys(s: State, o: nat)
    requires o < |s.objs|
    ensures DestroyedOf(Plus(s, o).objs) == DestroyedOf(s.objs)
  {
    DestroyedUpdate(s.objs, o, s.objs[o].(count := s.objs[o].count + 1));
  }

  lemma IncCosts(s: State, t: nat, r: State)
    requires Inv(s) && Next(s, Inc(t), r)
    ensures DestroyedOf(r.objs) == DestroyedOf(s.objs)
    ensures t < |s.threads| == |r.threads| && Left(r.threads[t].pc) + 1 == Left(s.threads[t].pc)
  {
    assert ThreadOk(s, t);
    hide DestroyedOf;
    match s.threads[t].pc {
      case CopyTo(dst, src, _) => if s.slots[src].ptr.Some? { PlusDestroys(s, s.slots[src].ptr.value); }
      case New(dst, o, from, phase) =>
        if phase == 1 {
          PlusDestroys(s, o);
        } else if s.slots[from.value].ptr.Some? {
          PlusDestroys(s, s.slots[from.value].ptr.value);
        }
    }
  }

  /** How many of the steps from i to j - 1 thread t takes. */
  function Taken(steps: seq<Step>, t: nat, i: nat, j: nat): nat
    requires i <= j <= |steps|
    decreases j
  {
    if i == j then 0 else Taken(steps, t, i, j - 1) + if Actor(steps[j - 1]) == Some(t) then 1 else 0
  }

  /** Within an operation a thread takes at most three steps, and one for every object that is destroyed meanwhile. */
  lemma {:induction false} OperationEnds(states: seq<State>, steps: seq<Step>, t: nat, i: nat, j: nat)
    requires Working(states, steps, t, i, j)
    ensures t < |states[j].threads| && DestroyedOf(states[i].objs) <= DestroyedOf(states[j].objs)
    ensures Taken(steps, t, i + 1, j) + Left(states[j].threads[t].pc) <= 3
            + DestroyedOf(states[j].objs) - DestroyedOf(states[i].objs)
    decreases j
  {
    hide Next, Init, Inv, DestroyedOf, Midway, Effect;
    assert Next(states[j - 1], steps[j - 1], states[j]);
    RunInv(states, steps, j - 1);
    StepCosts(states[j - 1], steps[j - 1], states[j]);
    if j == i + 1 {
      StartsWith(states[i], steps[i], states[j], t);
    } else {
      OperationEnds(states, steps, t, i, j - 1);
      if Actor(steps[j - 1]) != Some(t) {
        OthersStay(states[j - 1], steps[j - 1], states[j], t);
      } else {
        NotBeginning(states[j - 1], steps[j - 1], states[j], t);
      }
    }
  }

  lemma StartsWith(s: State, step: Step, r: State, t: nat)
    requires Next(s, step, r) && Begins(step) && Actor(step) == Some(t)
    ensures t < |r.threads| && Left(r.threads[t].pc) <= 3
  {
  }

  lemma NotBeginning(s: State, step: Step, r: State, t: nat)
    requires Next(s, step, r) && Actor(step) == Some(t) && t < |s.threads| && !s.threads[t].pc.Idle?
    ensures step.Inc? || step.Dec? || step.Store? || step.Destroy?
  {
  }
}
