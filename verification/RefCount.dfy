/** Intrusive reference counting under any interleaving of threads (oidn/common/ref.h, and retain and release of
    oidn/core/api.cpp). Owning pointers of all kinds are slots: references, unreleased handles of the interface, and
    the reference that a buffer holds on its device. A thread works on slots that it may use; each step makes at
    most one access to a shared counter. */
module RefCount {
  import opened Options

  /** destroyed counts how often the object was destroyed; a buffer has a member slot for its device. */
  datatype Obj = Obj(count: nat, destroyed: nat, member: Option<nat>)

  /** The pointer, and whether it stands for a unit of the object's count; between the decrement and the
      store that follows it the pointer is stale. */
  datatype Slot = Slot(ptr: Option<nat>, owns: bool, member: bool)

  /** Where a thread is in an operation.
      CopyTo: copy assignment and construction, retain, assignment from a raw pointer
              (0: start, 1: incremented, 2: decremented).
      MoveTo: move assignment and construction, detach (0: start, 1: decremented).
      Clear: assignment of null, destruction, release (0: start, 1: decremented).
      New: making an object and its first reference (0: allocated, 1: its device reference is made). */
  datatype Pc =
    | Idle
    | CopyTo(dst: nat, src: nat, phase: nat)
    | MoveTo(dst: nat, src: nat, phase: nat)
    | Clear(dst: nat, phase: nat)
    | New(dst: nat, o: nat, from: Option<nat>, phase: nat)

  /** todo lists objects whose count this thread took to zero; temp is the unit of a half-finished copy. */
  datatype Thread = Thread(pc: Pc, todo: seq<nat>, temp: Option<nat>)

  datatype State = State(objs: seq<Obj>, slots: seq<Slot>, threads: seq<Thread>)

  const NULL := Slot(None, false, false)

  // ----- who may use what

  predicate Writes(pc: Pc, k: nat) {
    match pc
    case Idle => false
    case CopyTo(dst, _, _) => k == dst
    case MoveTo(dst, src, _) => k == dst || k == src
    case Clear(dst, _) => k == dst
    case New(dst, _, _, _) => k == dst
  }

  predicate Reads(pc: Pc, k: nat) {
    match pc
    case CopyTo(_, src, _) => k == src
    case New(_, _, from, _) => from == Some(k)
    case _ => false
  }

  predicate Uses(pc: Pc, k: nat) {
    Writes(pc, k) || Reads(pc, k)
  }

  /** No other thread uses the slot. */
  ghost predicate CanWrite(s: State, t: nat, k: nat) {
    && k < |s.slots| && !s.slots[k].member
    && forall u {:trigger s.threads[u]} :: 0 <= u < |s.threads| && u != t ==> !Uses(s.threads[u].pc, k)
  }

  /** No other thread writes the slot; several may read it. */
  ghost predicate CanRead(s: State, t: nat, k: nat) {
    && k < |s.slots| && !s.slots[k].member
    && forall u {:trigger s.threads[u]} :: 0 <= u < |s.threads| && u != t ==> !Writes(s.threads[u].pc, k)
  }

  predicate Quiet(th: Thread) {
    th.pc.Idle? && th.todo == []
  }

  // ----- steps

  datatype Step =
    | NewSlot
    | BeginCopy(t: nat, dst: nat, src: nat)
    | BeginMove(t: nat, dst: nat, src: nat)
    | BeginClear(t: nat, dst: nat)
    | BeginNew(t: nat, dst: nat, from: Option<nat>)
    | Inc(t: nat)
    | Dec(t: nat)
    | Store(t: nat)
    | Destroy(t: nat)

  /** The counter has 64 bits. */
  function Minus(c: nat): nat {
    if c == 0 then 0xFFFF_FFFF_FFFF_FFFF else c - 1
  }

  function SetPc(s: State, t: nat, pc: Pc): State
    requires t < |s.threads|
  {
    s.(threads := s.threads[t := s.threads[t].(pc := pc)])
  }

  function Plus(s: State, o: nat): State
    requires o < |s.objs|
  {
    s.(objs := s.objs[o := s.objs[o].(count := s.objs[o].count + 1)])
  }

  /** decRef: the slot gives up its unit, and whoever takes the count to zero has to destroy the object. */
  function Release(s: State, t: nat, k: nat): State
    requires t < |s.threads| && k < |s.slots| && (s.slots[k].ptr.Some? ==> s.slots[k].ptr.value < |s.objs|)
  {
    match s.slots[k].ptr
    case None => s
    case Some(o) =>
      var c := Minus(s.objs[o].count);
      State(s.objs[o := s.objs[o].(count := c)], s.slots[k := s.slots[k].(owns := false)],
            if c == 0 then s.threads[t := s.threads[t].(todo := [o] + s.threads[t].todo)] else s.threads)
  }

  ghost predicate Next(s: State, step: Step, r: State) {
    match step
    case NewSlot => r == s.(slots := s.slots + [NULL])
    case BeginCopy(t, dst, src) =>
      && t < |s.threads| && Quiet(s.threads[t]) && CanWrite(s, t, dst) && CanRead(s, t, src)
      && r == SetPc(s, t, CopyTo(dst, src, 0))
    case BeginMove(t, dst, src) =>
      && t < |s.threads| && Quiet(s.threads[t]) && CanWrite(s, t, dst) && CanWrite(s, t, src)
      && r == SetPc(s, t, MoveTo(dst, src, 0))
    case BeginClear(t, dst) =>
      t < |s.threads| && Quiet(s.threads[t]) && CanWrite(s, t, dst) && r == SetPc(s, t, Clear(dst, 0))
    case BeginNew(t, dst, from) =>
      && t < |s.threads| && Quiet(s.threads[t]) && CanWrite(s, t, dst) && s.slots[dst] == NULL
      && (from.Some? ==> CanRead(s, t, from.value) && from.value != dst)
      && r == State(s.objs + [Obj(0, 0, if from.Some? then Some(|s.slots|) else None)],
                    if from.Some? then s.slots + [Slot(None, false, true)] else s.slots,
                    s.threads[t := s.threads[t].(pc := New(dst, |s.objs|, from, if from.Some? then 0 else 1))])
    case Inc(t) => t < |s.threads| && s.threads[t].todo == [] && IncStep(s, t, s.threads[t].pc, r)
    case Dec(t) => t < |s.threads| && s.threads[t].todo == [] && DecStep(s, t, s.threads[t].pc, r)
    case Store(t) => t < |s.threads| && s.threads[t].todo == [] && StoreStep(s, t, s.threads[t].pc, r)
    case Destroy(t) => t < |s.threads| && s.threads[t].todo != [] && DestroyStep(s, t, s.threads[t].todo[0], r)
  }

  /** incRef through the pointer of a slot. */
  ghost predicate IncStep(s: State, t: nat, pc: Pc, r: State)
    requires t < |s.threads|
  {
    match pc
    case CopyTo(dst, src, 0) =>
      && src < |s.slots|
      && (match s.slots[src].ptr
          case None => r == SetPc(s, t, CopyTo(dst, src, 1))
          case Some(o) => o < |s.objs|
                          && r == Plus(s, o).(threads := s.threads[t := s.threads[t].(pc := CopyTo(dst, src, 1), temp := Some(o))]))
    case New(dst, o, Some(src), 0) =>
      && src < |s.slots| && o < |s.objs| && s.objs[o].member.Some? && s.objs[o].member.value < |s.slots|
      && (match s.slots[src].ptr
          case None => r == SetPc(s, t, New(dst, o, Some(src), 1))
          case Some(d) => d < |s.objs|
                          && r == SetPc(Plus(s, d), t, New(dst, o, Some(src), 1)).(
                                    slots := s.slots[s.objs[o].member.value := Slot(Some(d), true, true)]))
    case New(dst, o, from, 1) =>
      && dst < |s.slots| && o < |s.objs|
      && r == SetPc(Plus(s, o), t, Idle).(slots := s.slots[dst := Slot(Some(o), true, false)])
    case _ => false
  }

  /** decRef of the old pointer. */
  ghost predicate DecStep(s: State, t: nat, pc: Pc, r: State)
    requires t < |s.threads|
  {
    match pc
    case CopyTo(dst, src, 1) => Releasable(s, dst) && r == SetPc(Release(s, t, dst), t, CopyTo(dst, src, 2))
    case MoveTo(dst, src, 0) => Releasable(s, dst) && r == SetPc(Release(s, t, dst), t, MoveTo(dst, src, 1))
    case Clear(dst, 0) => Releasable(s, dst) && r == SetPc(Release(s, t, dst), t, Clear(dst, 1))
    case _ => false
  }

  predicate Releasable(s: State, k: nat) {
    k < |s.slots| && (s.slots[k].ptr.Some? ==> s.slots[k].ptr.value < |s.objs|)
  }

  /** The new pointer is stored; a copy brings its own unit, a move takes over that of the source. */
  ghost predicate StoreStep(s: State, t: nat, pc: Pc, r: State)
    requires t < |s.threads|
  {
    match pc
    case CopyTo(dst, src, 2) =>
      && dst < |s.slots| && src < |s.slots|
      && r == s.(slots := s.slots[dst := Slot(s.slots[src].ptr, s.threads[t].temp.Some?, false)],
                 threads := s.threads[t := s.threads[t].(pc := Idle, temp := None)])
    case MoveTo(dst, src, 1) =>
      dst < |s.slots| && src < |s.slots| && r == SetPc(s, t, Idle).(slots := s.slots[dst := s.slots[src]][src := NULL])
    case Clear(dst, 1) =>
      dst < |s.slots| && r == SetPc(s, t, Idle).(slots := s.slots[dst := NULL])
    case _ => false
  }

  function Destroyed(s: State, t: nat, o: nat): State
    requires t < |s.threads| && o < |s.objs| && s.threads[t].todo != []
  {
    s.(objs := s.objs[o := s.objs[o].(destroyed := s.objs[o].destroyed + 1)],
       threads := s.threads[t := s.threads[t].(todo := s.threads[t].todo[1..])])
  }

  /** The destructor; that of a buffer ends with its reference to the device. */
  ghost predicate DestroyStep(s: State, t: nat, o: nat, r: State)
    requires t < |s.threads| && s.threads[t].todo != []
  {
    && o < |s.objs|
    && var x := Destroyed(s, t, o);
       match s.objs[o].member
       case None => r == x
       case Some(m) => Releasable(x, m) && r == Release(x, t, m)
  }

  /** At the beginning there are no objects, all references are null and no thread does anything. */
  ghost predicate Init(s: State) {
    && s.objs == [] && (forall k :: 0 <= k < |s.slots| ==> s.slots[k] == NULL)
    && forall t :: 0 <= t < |s.threads| ==> s.threads[t] == Thread(Idle, [], None)
  }

  ghost predicate Run(states: seq<State>, steps: seq<Step>) {
    && |states| == |steps| + 1 && Init(states[0])
    && forall k :: 0 <= k < |steps| ==> Next(states[k], steps[k], states[k + 1])
  }

  // ----- units of the count

  function Unit(x: Slot, o: nat): nat {
    if x.owns && x.ptr == Some(o) then 1 else 0
  }

  /** How many slots own the object. */
  function Owners(slots: seq<Slot>, o: nat): nat {
    if slots == [] then 0 else Owners(slots[..|slots| - 1], o) + Unit(slots[|slots| - 1], o)
  }

  function InFlight(th: Thread, o: nat): nat {
    if th.temp == Some(o) then 1 else 0
  }

  /** How many copies of it are half finished. */
  function Flights(ths: seq<Thread>, o: nat): nat {
    if ths == [] then 0 else Flights(ths[..|ths| - 1], o) + InFlight(ths[|ths| - 1], o)
  }

  function Listed(todo: seq<nat>, o: nat): nat {
    if todo == [] then 0 else (if todo[0] == o then 1 else 0) + Listed(todo[1..], o)
  }

  function Duty(th: Thread, o: nat): nat {
    Listed(th.todo, o) + if th.pc.New? && th.pc.o == o then 1 else 0
  }

  /** How many threads are about to destroy it or to make its first reference. */
  function Duties(ths: seq<Thread>, o: nat): nat {
    if ths == [] then 0 else Duties(ths[..|ths| - 1], o) + Duty(ths[|ths| - 1], o)
  }

  lemma {:induction false} OwnersUpdate(slots: seq<Slot>, k: nat, x: Slot, o: nat)
    requires k < |slots|
    ensures Owners(slots[k := x], o) == Owners(slots, o) - Unit(slots[k], o) + Unit(x, o)
    ensures Unit(slots[k], o) <= Owners(slots, o)
  {
    var n := |slots| - 1;
    if k == n {
      assert slots[k := x][..n] == slots[..n];
    } else {
      assert slots[k := x][..n] == slots[..n][k := x];
      OwnersUpdate(slots[..n], k, x, o);
    }
  }

  lemma {:induction false} ThreadsUpdate(ths: seq<Thread>, t: nat, x: Thread, o: nat)
    requires t < |ths|
    ensures Flights(ths[t := x], o) == Flights(ths, o) - InFlight(ths[t], o) + InFlight(x, o)
    ensures Duties(ths[t := x], o) == Duties(ths, o) - Duty(ths[t], o) + Duty(x, o)
    ensures InFlight(ths[t], o) <= Flights(ths, o) && Duty(ths[t], o) <= Duties(ths, o)
  {
    hide Duty;
    var n := |ths| - 1;
    if t == n {
      assert ths[t := x][..n] == ths[..n];
    } else {
      assert ths[t := x][..n] == ths[..n][t := x];
      ThreadsUpdate(ths[..n], t, x, o);
    }
  }

  lemma OwnersAppend(slots: seq<Slot>, x: Slot, o: nat)
    ensures Owners(slots + [x], o) == Owners(slots, o) + Unit(x, o)
  {
    assert (slots + [x])[..|slots|] == slots;
  }

  // ----- the invariant

  /** The count is the number of units, an object is destroyed at most once and not while there are units, and
      as long as there are none some thread, and only one, sees to it. */
  ghost predicate ObjOk(s: State, o: nat)
    requires o < |s.objs|
  {
    && s.objs[o].count == Owners(s.slots, o) + Flights(s.threads, o)
    && s.objs[o].destroyed <= 1 && (s.objs[o].destroyed == 1 ==> s.objs[o].count == 0)
    && Duties(s.threads, o) == (if s.objs[o].destroyed == 0 && s.objs[o].count == 0 then 1 else 0)
  }

  /** The pointer is not stale. */
  predicate Settled(x: Slot) {
    x.ptr.Some? ==> x.owns
  }

  /** The slot lies between its decrement and its store. */
  predicate Between(pc: Pc, k: nat) {
    match pc
    case CopyTo(dst, _, phase) => k == dst && phase == 2
    case MoveTo(dst, _, phase) => k == dst && phase == 1
    case Clear(dst, phase) => k == dst && phase == 1
    case _ => false
  }

  ghost predicate SlotOk(s: State, k: nat)
    requires k < |s.slots|
  {
    && (s.slots[k].ptr.Some? ==> s.slots[k].ptr.value < |s.objs|) && (s.slots[k].owns ==> s.slots[k].ptr.Some?)
    && (!s.slots[k].member && (forall t {:trigger s.threads[t]} :: 0 <= t < |s.threads| ==>
       !Between(s.threads[t].pc, k)) ==>
          Settled(s.slots[k]))
  }

  /** The device reference of a live buffer is in order, and no other buffer has it. */
  ghost predicate MemberOk(s: State, o: nat)
    requires o < |s.objs|
  {
    s.objs[o].member.Some? ==>
      var m := s.objs[o].member.value;
      && m < |s.slots| && s.slots[m].member && (s.objs[o].destroyed == 0 ==> Settled(s.slots[m]))
      && forall p {:trigger s.objs[p]} :: 0 <= p < |s.objs| && p != o ==> s.objs[p].member != Some(m)
  }

  predicate Plain(s: State, k: nat) {
    k < |s.slots| && !s.slots[k].member
  }

  ghost predicate PcOk(s: State, th: Thread) {
    match th.pc
    case Idle => th.temp == None
    case CopyTo(dst, src, phase) =>
      && Plain(s, dst) && Plain(s, src) && phase <= 2 && th.temp == (if phase == 0 then None else s.slots[src].ptr)
      && (phase == 2 ==> !s.slots[dst].owns)
    case MoveTo(dst, src, phase) =>
      Plain(s, dst) && Plain(s, src) && phase <= 1 && th.temp == None && (phase == 1 ==> !s.slots[dst].owns)
    case Clear(dst, phase) => Plain(s, dst) && phase <= 1 && th.temp == None && (phase == 1 ==> !s.slots[dst].owns)
    case New(dst, o, from, phase) =>
      && Plain(s, dst) && s.slots[dst] == NULL && o < |s.objs| && phase <= 1 && th.temp == None
      && s.objs[o].destroyed == 0 && (from.Some? ==> Plain(s, from.value) && from.value != dst)
      && (phase == 0 ==> from.Some? && s.objs[o].member.Some? && s.objs[o].member.value < |s.slots|
                         && s.slots[s.objs[o].member.value] == Slot(None, false, true))
  }

  ghost predicate ThreadOk(s: State, t: nat)
    requires t < |s.threads|
  {
    && PcOk(s, s.threads[t])
    && forall i :: 0 <= i < |s.threads[t].todo| ==> s.threads[t].todo[i] < |s.objs|
  }

  /** What a thread writes no other thread uses. */
  ghost predicate Locked(s: State) {
    forall t, u, k: nat {:trigger Writes(s.threads[t].pc, k), Uses(s.threads[u].pc, k)} ::
      0 <= t < |s.threads| && 0 <= u < |s.threads| && t != u && Writes(s.threads[t].pc, k) ==> !Uses(s.threads[u].pc, k)
  }

  ghost predicate ObjsOk(s: State) {
    forall o {:trigger s.objs[o]} {:trigger ObjOk(s, o)} :: 0 <= o < |s.objs| ==> ObjOk(s, o)
  }

  ghost predicate MembersOk(s: State) {
    forall o {:trigger s.objs[o]} {:trigger MemberOk(s, o)} :: 0 <= o < |s.objs| ==> MemberOk(s, o)
  }

  ghost predicate SlotsOk(s: State) {
    forall k {:trigger s.slots[k]} {:trigger SlotOk(s, k)} :: 0 <= k < |s.slots| ==> SlotOk(s, k)
  }

  ghost predicate ThreadsOk(s: State) {
    forall t {:trigger s.threads[t]} {:trigger ThreadOk(s, t)} :: 0 <= t < |s.threads| ==> ThreadOk(s, t)
  }

  ghost predicate Inv(s: State) {
    ObjsOk(s) && MembersOk(s) && SlotsOk(s) && ThreadsOk(s) && Locked(s)
  }

  // ----- an owned object is alive

  lemma OwnerAlive(s: State, k: nat, o: nat)
    requires k < |s.slots| && s.slots[k].owns && s.slots[k].ptr == Some(o) && o < |s.objs| && ObjOk(s, o)
    ensures s.objs[o].count > 0 && s.objs[o].destroyed == 0
  {
    OwnersUpdate(s.slots, k, NULL, o);
  }

  lemma NotBoth(s: State, t: nat, u: nat, k: nat)
    requires Locked(s) && t < |s.threads| && u < |s.threads| && t != u
    ensures Writes(s.threads[t].pc, k) ==> !Uses(s.threads[u].pc, k)
  {
  }

  /** What a thread may use is settled unless the thread itself is between decrement and store. */
  lemma UsedSettled(s: State, t: nat, k: nat)
    requires Inv(s) && t < |s.threads| && Plain(s, k) && Uses(s.threads[t].pc, k) && !Between(s.threads[t].pc, k)
    ensures Settled(s.slots[k])
  {
    assert SlotOk(s, k);
    forall u: nat | u < |s.threads|
      ensures !Between(s.threads[u].pc, k)
    {
      assert Between(s.threads[u].pc, k) ==> Writes(s.threads[u].pc, k);
      if u != t {
        NotBoth(s, u, t, k);
      }
    }
  }

  // ----- counts

  /** Giving up a unit keeps the books in order. */
  lemma ReleaseObjs(s: State, t: nat, k: nat)
    requires ObjsOk(s) && t < |s.threads| && Releasable(s, k) && Settled(s.slots[k])
    ensures var r := Release(s, t, k);
            && ObjsOk(r) && |r.objs| == |s.objs| && |r.slots| == |s.slots| && |r.threads| == |s.threads|
            && (forall o {:trigger r.objs[o]} :: 0 <= o < |s.objs| ==>
                  && r.objs[o].destroyed == s.objs[o].destroyed && r.objs[o].member == s.objs[o].member
                  && r.objs[o].count == s.objs[o].count - (if s.slots[k].ptr == Some(o) then 1 else 0))
            && r.slots == s.slots[k := s.slots[k].(owns := if s.slots[k].ptr.Some? then false else s.slots[k].owns)]
            && (forall u {:trigger r.threads[u]} :: 0 <= u < |s.threads| ==>
                  r.threads[u].pc == s.threads[u].pc && r.threads[u].temp == s.threads[u].temp
                  && (r.threads[u].todo == s.threads[u].todo
                      || (s.slots[k].ptr.Some? && r.threads[u].todo == [s.slots[k].ptr.value] + s.threads[u].todo)))
  {
    var r := Release(s, t, k);
    if s.slots[k].ptr.Some? {
      var d := s.slots[k].ptr.value;
      OwnerAlive(s, k, d);
      forall o: nat | o < |s.objs|
        ensures ObjOk(r, o)
      {
        assert ObjOk(s, o);
        OwnersUpdate(s.slots, k, s.slots[k].(owns := false), o);
        if r.objs[d].count == 0 {
          ThreadsUpdate(s.threads, t, s.threads[t].(todo := [d] + s.threads[t].todo), o);
          ListedFirst(d, s.threads[t].todo, o);
        }
      }
    }
  }

  lemma ListedFirst(d: nat, todo: seq<nat>, o: nat)
    ensures Listed([d] + todo, o) == Listed(todo, o) + if d == o then 1 else 0
  {
    assert ([d] + todo)[1..] == todo;
  }

  /** Changing the pc of a thread without making or finishing an object changes no count. */
  lemma PcObjs(s: State, t: nat, pc: Pc)
    requires ObjsOk(s) && t < |s.threads| && !pc.New? && !s.threads[t].pc.New?
    ensures ObjsOk(SetPc(s, t, pc))
  {
    forall o: nat | o < |s.objs|
      ensures ObjOk(SetPc(s, t, pc), o)
    {
      assert ObjOk(s, o);
      ThreadsUpdate(s.threads, t, s.threads[t].(pc := pc), o);
    }
  }

  // ----- steps keep the invariant

  /** What is left to show when only one thread's pc changes and it begins an operation. */
  lemma BeginInv(s: State, t: nat, pc: Pc, r: State)
    requires Inv(s) && t < |s.threads| && Quiet(s.threads[t]) && r == SetPc(s, t, pc)
    requires !pc.New? && !pc.Idle? && pc.phase == 0 && PcOk(r, r.threads[t])
    requires forall k: nat :: Writes(pc, k) ==> CanWrite(s, t, k)
    requires forall k: nat :: Reads(pc, k) ==> CanRead(s, t, k)
    ensures Inv(r)
  {
    PcObjs(s, t, pc);
    forall o: nat | o < |r.objs|
      ensures ObjOk(r, o) && MemberOk(r, o)
    {
      assert MemberOk(s, o);
    }
    forall k: nat | k < |r.slots|
      ensures SlotOk(r, k)
    {
      assert SlotOk(s, k);
      SameBetween(s, r, t, k);
    }
    forall u: nat | u < |r.threads|
      ensures ThreadOk(r, u)
    {
      assert ThreadOk(s, u);
    }
    StillLocked(s, t, pc, r);
  }

  lemma SameBetween(s: State, r: State, t: nat, k: nat)
    requires t < |s.threads| == |r.threads| && !Between(r.threads[t].pc, k) && !Between(s.threads[t].pc, k)
    requires forall u {:trigger r.threads[u]} :: 0 <= u < |s.threads| && u != t ==> r.threads[u].pc == s.threads[u].pc
    ensures (forall u {:trigger r.threads[u]} :: 0 <= u < |r.threads| ==> !Between(r.threads[u].pc, k)) <==>
            (forall u {:trigger s.threads[u]} :: 0 <= u < |s.threads| ==> !Between(s.threads[u].pc, k))
  {
    if forall u {:trigger r.threads[u]} :: 0 <= u < |r.threads| ==> !Between(r.threads[u].pc, k) {
      forall u | 0 <= u < |s.threads|
        ensures !Between(s.threads[u].pc, k)
      {
        assert !Between(r.threads[u].pc, k);
      }
    }
    if forall u {:trigger s.threads[u]} :: 0 <= u < |s.threads| ==> !Between(s.threads[u].pc, k) {
      forall u | 0 <= u < |r.threads|
        ensures !Between(r.threads[u].pc, k)
      {
        assert !Between(s.threads[u].pc, k);
      }
    }
  }

  lemma StillLocked(s: State, t: nat, pc: Pc, r: State)
    requires Locked(s) && t < |s.threads| == |r.threads| && r.threads[t].pc == pc
    requires forall u {:trigger r.threads[u]} :: 0 <= u < |s.threads| && u != t ==> r.threads[u].pc == s.threads[u].pc
    requires forall k: nat :: Writes(pc, k) ==> CanWrite(s, t, k) || Writes(s.threads[t].pc, k)
    requires forall k: nat :: Reads(pc, k) ==> CanRead(s, t, k) || Uses(s.threads[t].pc, k)
    ensures Locked(r)
  {
    forall a, b, k: nat | 0 <= a < |r.threads| && 0 <= b < |r.threads| && a != b && Writes(r.threads[a].pc, k)
      ensures !Uses(r.threads[b].pc, k)
    {
      var p, q := s.threads[a].pc, s.threads[b].pc;
      assert Writes(p, k) ==> !Uses(q, k);
      assert Writes(q, k) ==> !Uses(p, k);
      assert a != t ==> r.threads[a].pc == p;
      assert b != t ==> r.threads[b].pc == q;
    }
  }

  lemma NewSlotInv(s: State, r: State)
    requires Inv(s) && Next(s, NewSlot, r)
    ensures Inv(r)
  {
    forall o: nat | o < |r.objs|
      ensures ObjOk(r, o) && MemberOk(r, o)
    {
      assert ObjOk(s, o) && MemberOk(s, o);
      OwnersAppend(s.slots, NULL, o);
    }
    forall k: nat | k < |r.slots|
      ensures SlotOk(r, k)
    {
      if k < |s.slots| {
        assert SlotOk(s, k);
      }
    }
    forall u: nat | u < |r.threads|
      ensures ThreadOk(r, u)
    {
      assert ThreadOk(s, u);
    }
    SameLocks(s, r);
  }

  lemma SameLocks(s: State, r: State)
    requires Locked(s) && |r.threads| == |s.threads|
    requires forall u {:trigger r.threads[u]} :: 0 <= u < |s.threads| ==> r.threads[u].pc == s.threads[u].pc
    ensures Locked(r)
  {
    forall a, b, k: nat | 0 <= a < |r.threads| && 0 <= b < |r.threads| && a != b && Writes(r.threads[a].pc, k)
      ensures !Uses(r.threads[b].pc, k)
    {
      NotBoth(s, a, b, k);
      assert r.threads[a].pc == s.threads[a].pc && r.threads[b].pc == s.threads[b].pc;
    }
  }

  lemma BeginSteps(s: State, step: Step, r: State)
    requires Inv(s) && Next(s, step, r) && (step.BeginCopy? || step.BeginMove? || step.BeginClear?)
    ensures Inv(r)
  {
    assert ThreadOk(s, step.t);
    match step {
      case BeginCopy(t, dst, src) => BeginInv(s, t, CopyTo(dst, src, 0), r);
      case BeginMove(t, dst, src) => BeginInv(s, t, MoveTo(dst, src, 0), r);
      case BeginClear(t, dst) => BeginInv(s, t, Clear(dst, 0), r);
    }
  }

  /** What giving up the unit of slot k does to a state in order. */
  ghost predicate Released(s: State, t: nat, k: nat, r: State) {
    && t < |s.threads| == |r.threads| && k < |s.slots| && |r.objs| == |s.objs| && ObjsOk(r)
    && (forall o {:trigger r.objs[o]} :: 0 <= o < |s.objs| ==>
          r.objs[o].member == s.objs[o].member && r.objs[o].destroyed == s.objs[o].destroyed)
    && r.slots == s.slots[k := s.slots[k].(owns := false)]
    && (forall u {:trigger r.threads[u]} :: 0 <= u < |s.threads| && u != t ==> r.threads[u] == s.threads[u])
    && r.threads[t].temp == s.threads[t].temp
    && forall i :: 0 <= i < |r.threads[t].todo| ==> r.threads[t].todo[i] < |s.objs|
  }

  lemma ReleasedMembers(s: State, t: nat, k: nat, r: State)
    requires Inv(s) && Released(s, t, k, r) && !s.slots[k].member
    ensures MembersOk(r)
  {
    hide ObjsOk, Locked, SlotOk, ThreadOk;
    forall o: nat | o < |r.objs|
      ensures MemberOk(r, o)
    {
      assert MemberOk(s, o) && r.objs[o].member == s.objs[o].member;
    }
  }

  lemma ReleasedSlots(s: State, t: nat, k: nat, r: State)
    requires Inv(s) && Released(s, t, k, r) && Between(r.threads[t].pc, k)
    requires forall j: nat :: Between(s.threads[t].pc, j) ==> j == k
    requires forall j: nat :: Between(r.threads[t].pc, j) ==> j == k
    ensures SlotsOk(r)
  {
    hide ObjsOk, Locked, MemberOk, ThreadOk;
    forall j: nat | j < |r.slots|
      ensures SlotOk(r, j)
    {
      assert SlotOk(s, j);
      if j != k {
        SameBetween(s, r, t, j);
      }
    }
  }

  lemma ReleasedThreads(s: State, t: nat, k: nat, r: State)
    requires Inv(s) && Released(s, t, k, r) && PcOk(r, r.threads[t]) && !s.slots[k].member && Writes(s.threads[t].pc, k)
    ensures ThreadsOk(r)
  {
    hide ObjsOk, Locked, SlotOk, MemberOk;
    forall u: nat | u < |r.threads|
      ensures ThreadOk(r, u)
    {
      assert ThreadOk(s, u);
      if u != t {
        assert r.threads[u] == s.threads[u];
        ReleasedOther(s, t, k, r, u);
      }
    }
  }

  lemma ReleasedOther(s: State, t: nat, k: nat, r: State, u: nat)
    requires Inv(s) && Released(s, t, k, r) && u < |s.threads| && u != t && !s.slots[k].member
             && Writes(s.threads[t].pc, k)
    ensures PcOk(r, s.threads[u])
  {
    hide ObjsOk, Locked, SlotOk, MemberOk;
    assert ThreadOk(s, u);
    NotBoth(s, t, u, k);
    var th := s.threads[u];
    match th.pc {
      case Idle =>
      case CopyTo(dst, src, phase) =>
        assert Uses(th.pc, dst) && Uses(th.pc, src);
      case MoveTo(dst, src, phase) =>
        assert Uses(th.pc, dst) && Uses(th.pc, src);
      case Clear(dst, phase) =>
        assert Uses(th.pc, dst);
      case New(dst, o, from, phase) =>
        assert Uses(th.pc, dst) && (from.Some? ==> Uses(th.pc, from.value));
        assert r.objs[o].member == s.objs[o].member;
    }
  }

  /** Where an operation stands after its decrement. */
  function AfterDec(pc: Pc): Pc {
    match pc
    case CopyTo(dst, src, _) => CopyTo(dst, src, 2)
    case MoveTo(dst, src, _) => MoveTo(dst, src, 1)
    case Clear(dst, _) => Clear(dst, 1)
    case _ => Idle
  }

  /** An operation that is about to give up the old pointer of its slot. */
  predicate BeforeDec(pc: Pc) {
    match pc
    case CopyTo(_, _, phase) => phase == 1
    case MoveTo(_, _, phase) => phase == 0
    case Clear(_, phase) => phase == 0
    case _ => false
  }

  lemma DecIs(s: State, t: nat, r: State)
    requires Next(s, Dec(t), r)
    ensures t < |s.threads| && BeforeDec(s.threads[t].pc) && Releasable(s, s.threads[t].pc.dst)
    ensures r == SetPc(Release(s, t, s.threads[t].pc.dst), t, AfterDec(s.threads[t].pc))
  {
    hide Release;
  }

  lemma DecReleased(s: State, t: nat, r: State)
    requires Inv(s) && t < |s.threads| && BeforeDec(s.threads[t].pc) && Releasable(s, s.threads[t].pc.dst)
    requires r == SetPc(Release(s, t, s.threads[t].pc.dst), t, AfterDec(s.threads[t].pc))
    ensures Plain(s, s.threads[t].pc.dst) && Released(s, t, s.threads[t].pc.dst, r)
            && r.threads[t].pc == AfterDec(s.threads[t].pc)
  {
    var k := s.threads[t].pc.dst;
    assert ThreadOk(s, t) && SlotOk(s, k);
    UsedSettled(s, t, k);
    ReleaseObjs(s, t, k);
    var x := Release(s, t, k);
    PcObjs(x, t, AfterDec(s.threads[t].pc));
    hide Inv, ObjsOk, Release, PcOk;
    ReleasedIs(s, t, k, x, AfterDec(s.threads[t].pc));
  }

  lemma ReleasedIs(s: State, t: nat, k: nat, x: State, pc: Pc)
    requires t < |s.threads| == |x.threads| && k < |s.slots| && |x.objs| == |s.objs| && ObjsOk(SetPc(x, t, pc))
    requires (s.slots[k].ptr.Some? ==> s.slots[k].ptr.value < |s.objs|) && (s.slots[k].owns ==> s.slots[k].ptr.Some?)
    requires forall o {:trigger x.objs[o]} :: 0 <= o < |s.objs| ==>
               x.objs[o].member == s.objs[o].member && x.objs[o].destroyed == s.objs[o].destroyed
    requires x.slots == s.slots[k := s.slots[k].(owns := if s.slots[k].ptr.Some? then false else s.slots[k].owns)]
    requires x == Release(s, t, k) && forall i :: 0 <= i < |s.threads[t].todo| ==> s.threads[t].todo[i] < |s.objs|
    ensures Released(s, t, k, SetPc(x, t, pc))
  {
    hide ObjsOk;
  }

  lemma DecPcOk(s: State, t: nat, r: State)
    requires t < |s.threads| && BeforeDec(s.threads[t].pc) && PcOk(s, s.threads[t])
             && Released(s, t, s.threads[t].pc.dst, r)
    requires r.threads[t].pc == AfterDec(s.threads[t].pc)
    ensures PcOk(r, r.threads[t])
  {
    hide ObjsOk;
  }

  /** The old pointer is given up; the slot is stale until the store. */
  lemma DecInv(s: State, t: nat, r: State)
    requires Inv(s) && Next(s, Dec(t), r)
    ensures Inv(r)
  {
    hide Next, ObjsOk, Locked, SlotsOk, SlotOk, MembersOk, MemberOk, Release;
    DecIs(s, t, r);
    DecReleased(s, t, r);
    var k := s.threads[t].pc.dst;
    assert ThreadOk(s, t);
    DecPcOk(s, t, r);
    ReleasedMembers(s, t, k, r);
    ReleasedSlots(s, t, k, r);
    ReleasedThreads(s, t, k, r);
    StillLocked(s, t, r.threads[t].pc, r);
  }

  lemma IncCopyObjs(s: State, t: nat, r: State)
    requires Inv(s) && Next(s, Inc(t), r) && s.threads[t].pc.CopyTo?
    ensures ObjsOk(r) && MembersOk(r)
  {
    var src := s.threads[t].pc.src;
    assert ThreadOk(s, t) && SlotOk(s, src);
    UsedSettled(s, t, src);
    if s.slots[src].ptr.Some? {
      assert ObjOk(s, s.slots[src].ptr.value);
      OwnerAlive(s, src, s.slots[src].ptr.value);
    }
    forall o: nat | o < |r.objs|
      ensures ObjOk(r, o) && MemberOk(r, o)
    {
      assert ObjOk(s, o) && MemberOk(s, o);
      ThreadsUpdate(s.threads, t, r.threads[t], o);
    }
  }

  lemma IncCopySlots(s: State, t: nat, r: State)
    requires Inv(s) && Next(s, Inc(t), r) && s.threads[t].pc.CopyTo?
    ensures SlotsOk(r)
  {
    var src := s.threads[t].pc.src;
    assert ThreadOk(s, t) && SlotOk(s, src);
    forall j: nat | j < |r.slots|
      ensures SlotOk(r, j)
    {
      assert SlotOk(s, j);
      SameBetween(s, r, t, j);
    }
  }

  /** What a thread is doing does not depend on the counts. */
  lemma SamePcOk(s: State, r: State, th: Thread)
    requires PcOk(s, th) && r.slots == s.slots && |r.objs| == |s.objs|
    requires forall o {:trigger r.objs[o]} :: 0 <= o < |s.objs| ==>
               r.objs[o].member == s.objs[o].member && r.objs[o].destroyed == s.objs[o].destroyed
    ensures PcOk(r, th)
  {
    if th.pc.New? {
      assert r.objs[th.pc.o].member == s.objs[th.pc.o].member;
    }
  }

  lemma IncCopyThreads(s: State, t: nat, r: State)
    requires Inv(s) && Next(s, Inc(t), r) && s.threads[t].pc.CopyTo?
    ensures ThreadsOk(r)
  {
    hide PcOk, ObjsOk, MembersOk, SlotsOk, Locked;
    forall u: nat | u < |r.threads|
      ensures ThreadOk(r, u)
    {
      assert ThreadOk(s, u);
      SamePcOk(s, r, s.threads[u]);
      if u == t {
        IncCopyPc(s, t, r);
      }
    }
  }

  lemma IncCopyPc(s: State, t: nat, r: State)
    requires Next(s, Inc(t), r) && s.threads[t].pc.CopyTo? && PcOk(s, s.threads[t])
    ensures PcOk(r, r.threads[t])
  {
  }

  /** A copy is counted before the old pointer is given up. */
  lemma IncCopyInv(s: State, t: nat, r: State)
    requires Inv(s) && Next(s, Inc(t), r) && s.threads[t].pc.CopyTo?
    ensures Inv(r)
  {
    IncCopyObjs(s, t, r);
    IncCopySlots(s, t, r);
    IncCopyThreads(s, t, r);
    hide ObjsOk, MembersOk, SlotsOk, ThreadsOk;
    StillLocked(s, t, r.threads[t].pc, r);
  }

  /** The new pointer takes the unit of the copy. */
  lemma StoreCopyInv(s: State, t: nat, r: State)
    requires Inv(s) && Next(s, Store(t), r) && s.threads[t].pc.CopyTo?
    ensures Inv(r)
  {
    var dst, src := s.threads[t].pc.dst, s.threads[t].pc.src;
    assert ThreadOk(s, t) && SlotOk(s, src) && SlotOk(s, dst);
    var x := r.slots[dst];
    forall o: nat | o < |r.objs|
      ensures ObjOk(r, o)
    {
      assert ObjOk(s, o);
      ThreadsUpdate(s.threads, t, r.threads[t], o);
      OwnersUpdate(s.slots, dst, x, o);
    }
    StoreRest(s, t, r);
  }

  /** What is left to show after a store. */
  lemma StoreRest(s: State, t: nat, r: State)
    requires Inv(s) && t < |s.threads| == |r.threads| && r.threads[t] == Thread(Idle, s.threads[t].todo, None)
    requires ObjsOk(r) && |r.slots| == |s.slots| && |r.objs| == |s.objs|
    requires forall o {:trigger r.objs[o]} :: 0 <= o < |s.objs| ==> r.objs[o] == s.objs[o]
    requires forall u {:trigger r.threads[u]} :: 0 <= u < |s.threads| && u != t ==> r.threads[u] == s.threads[u]
    requires forall k {:trigger r.slots[k]} :: 0 <= k < |s.slots| ==>
               r.slots[k] == s.slots[k]
               || (Writes(s.threads[t].pc, k) && !s.slots[k].member && !r.slots[k].member && Settled(r.slots[k])
                   && (r.slots[k].ptr.Some? ==> r.slots[k].ptr.value < |s.objs|) && (r.slots[k].owns ==>
                      r.slots[k].ptr.Some?))
    requires forall k {:trigger r.slots[k]} :: 0 <= k < |s.slots| && Between(s.threads[t].pc, k) ==> Settled(r.slots[k])
    ensures Inv(r)
  {
    forall o: nat | o < |r.objs|
      ensures MemberOk(r, o)
    {
      assert MemberOk(s, o);
      assert r.objs[o] == s.objs[o];
    }
    forall k: nat | k < |r.slots|
      ensures SlotOk(r, k)
    {
      assert SlotOk(s, k);
      if r.slots[k] == s.slots[k] && !Between(s.threads[t].pc, k) {
        SameBetween(s, r, t, k);
      }
    }
    forall u: nat | u < |r.threads|
      ensures ThreadOk(r, u)
    {
      assert ThreadOk(s, u);
      if u != t {
        forall k: nat | Writes(s.threads[t].pc, k)
          ensures !Uses(s.threads[u].pc, k)
        {
          NotBoth(s, t, u, k);
        }
        OtherThread(s, r, t, u);
      }
    }
    StillLocked(s, t, Idle, r);
  }

  lemma OtherThread(s: State, r: State, t: nat, u: nat)
    requires Inv(s) && t < |s.threads| == |r.threads| && u < |s.threads| && u != t && r.threads[u] == s.threads[u]
    requires ThreadOk(s, u) && |r.slots| == |s.slots| && |r.objs| == |s.objs|
    requires forall o {:trigger r.objs[o]} :: 0 <= o < |s.objs| ==> r.objs[o] == s.objs[o]
    requires forall k: nat :: Writes(s.threads[t].pc, k) ==> !Uses(s.threads[u].pc, k)
    requires forall k {:trigger r.slots[k]} :: 0 <= k < |s.slots| ==>
               r.slots[k] == s.slots[k] || (Writes(s.threads[t].pc, k) && !s.slots[k].member && !r.slots[k].member)
    ensures ThreadOk(r, u)
  {
    var th := s.threads[u];
    match th.pc {
      case Idle =>
      case CopyTo(dst, src, phase) =>
        assert Uses(th.pc, dst) && Uses(th.pc, src);
      case MoveTo(dst, src, phase) =>
        assert Uses(th.pc, dst) && Uses(th.pc, src);
      case Clear(dst, phase) =>
        assert Uses(th.pc, dst);
      case New(dst, o, from, phase) =>
        assert Uses(th.pc, dst) && (from.Some? ==> Uses(th.pc, from.value));
        assert MemberOk(s, o);
    }
  }

  /** The new pointer takes the unit of the source, which becomes null. */
  lemma StoreMoveInv(s: State, t: nat, r: State)
    requires Inv(s) && Next(s, Store(t), r) && s.threads[t].pc.MoveTo?
    ensures Inv(r)
  {
    var dst, src := s.threads[t].pc.dst, s.threads[t].pc.src;
    assert ThreadOk(s, t) && SlotOk(s, src) && SlotOk(s, dst);
    if src != dst {
      UsedSettled(s, t, src);
    }
    forall o: nat | o < |r.objs|
      ensures ObjOk(r, o)
    {
      assert ObjOk(s, o);
      ThreadsUpdate(s.threads, t, r.threads[t], o);
      OwnersUpdate(s.slots, dst, s.slots[src], o);
      OwnersUpdate(s.slots[dst := s.slots[src]], src, NULL, o);
    }
    StoreRest(s, t, r);
  }

  lemma StoreClearInv(s: State, t: nat, r: State)
    requires Inv(s) && Next(s, Store(t), r) && s.threads[t].pc.Clear?
    ensures Inv(r)
  {
    var dst := s.threads[t].pc.dst;
    assert ThreadOk(s, t) && SlotOk(s, dst);
    forall o: nat | o < |r.objs|
      ensures ObjOk(r, o)
    {
      assert ObjOk(s, o);
      ThreadsUpdate(s.threads, t, r.threads[t], o);
      OwnersUpdate(s.slots, dst, NULL, o);
    }
    StoreRest(s, t, r);
  }

  // ----- making and destroying objects

  lemma {:induction false} NoOwners(slots: seq<Slot>, o: nat)
    requires forall k {:trigger slots[k]} :: 0 <= k < |slots| ==> slots[k].ptr != Some(o)
    ensures Owners(slots, o) == 0
  {
    if slots != [] {
      NoOwners(slots[..|slots| - 1], o);
    }
  }

  lemma {:induction false} NotListed(todo: seq<nat>, o: nat)
    requires forall i :: 0 <= i < |todo| ==> todo[i] != o
    ensures Listed(todo, o) == 0
  {
    if todo != [] {
      NotListed(todo[1..], o);
    }
  }

  lemma {:induction false} NoThreads(ths: seq<Thread>, o: nat)
    requires forall t {:trigger ths[t]} :: 0 <= t < |ths| ==>
               ths[t].temp != Some(o) && Listed(ths[t].todo, o) == 0 && !(ths[t].pc.New? && ths[t].pc.o == o)
    ensures Flights(ths, o) == 0 && Duties(ths, o) == 0
  {
    if ths != [] {
      NoThreads(ths[..|ths| - 1], o);
    }
  }

  /** Nobody knows an object that does not exist yet. */
  lemma Unknown(s: State)
    requires Inv(s)
    ensures Owners(s.slots, |s.objs|) == 0 && Flights(s.threads, |s.objs|) == 0 && Duties(s.threads, |s.objs|) == 0
  {
    forall k | 0 <= k < |s.slots|
      ensures s.slots[k].ptr != Some(|s.objs|)
    {
      assert SlotOk(s, k);
    }
    NoOwners(s.slots, |s.objs|);
    forall t | 0 <= t < |s.threads|
      ensures s.threads[t].temp != Some(|s.objs|) && Listed(s.threads[t].todo, |s.objs|) == 0
              && !(s.threads[t].pc.New? && s.threads[t].pc.o == |s.objs|)
    {
      assert ThreadOk(s, t);
      NotListed(s.threads[t].todo, |s.objs|);
      if s.threads[t].pc.CopyTo? {
        assert SlotOk(s, s.threads[t].pc.src);
      }
    }
    NoThreads(s.threads, |s.objs|);
  }

  lemma BeginNewObjs(s: State, t: nat, dst: nat, from: Option<nat>, r: State)
    requires Inv(s) && Next(s, BeginNew(t, dst, from), r)
    ensures ObjsOk(r) && MembersOk(r)
  {
    var n := |s.objs|;
    Unknown(s);
    assert ThreadOk(s, t);
    forall o: nat | o < |r.objs|
      ensures ObjOk(r, o) && MemberOk(r, o)
    {
      ThreadsUpdate(s.threads, t, r.threads[t], o);
      OwnersAppend(s.slots, Slot(None, false, true), o);
      if o < n {
        assert ObjOk(s, o) && MemberOk(s, o);
      }
    }
  }

  lemma BeginNewSlots(s: State, t: nat, dst: nat, from: Option<nat>, r: State)
    requires Inv(s) && Next(s, BeginNew(t, dst, from), r)
    ensures SlotsOk(r)
  {
    var n := |s.objs|;
    Unknown(s);
    assert ThreadOk(s, t);
    forall k: nat | k < |r.slots|
      ensures SlotOk(r, k)
    {
      if k < |s.slots| {
        assert SlotOk(s, k);
        SameBetween(s, r, t, k);
      }
    }
  }

  lemma BeginNewThreads(s: State, t: nat, dst: nat, from: Option<nat>, r: State)
    requires Inv(s) && Next(s, BeginNew(t, dst, from), r)
    ensures ThreadsOk(r)
  {
    var n := |s.objs|;
    Unknown(s);
    assert ThreadOk(s, t);
    forall u: nat | u < |r.threads|
      ensures ThreadOk(r, u)
    {
      assert ThreadOk(s, u);
    }
  }

  lemma BeginNewInv(s: State, t: nat, dst: nat, from: Option<nat>, r: State)
    requires Inv(s) && Next(s, BeginNew(t, dst, from), r)
    ensures Inv(r)
  {
    BeginNewObjs(s, t, dst, from, r);
    BeginNewSlots(s, t, dst, from, r);
    BeginNewThreads(s, t, dst, from, r);
    hide ObjsOk, MembersOk, SlotsOk, ThreadsOk;
    StillLocked(s, t, r.threads[t].pc, r);
  }

  lemma IncMemberObjs(s: State, t: nat, r: State)
    requires Inv(s) && Next(s, Inc(t), r) && s.threads[t].pc.New? && s.threads[t].pc.phase == 0
    ensures ObjsOk(r) && MembersOk(r)
  {
    var b, src := s.threads[t].pc.o, s.threads[t].pc.from.value;
    assert ThreadOk(s, t) && SlotOk(s, src) && MemberOk(s, b);
    var m := s.objs[b].member.value;
    UsedSettled(s, t, src);
    assert r.slots[..] == s.slots[m := r.slots[m]];
    if s.slots[src].ptr.Some? {
      assert ObjOk(s, s.slots[src].ptr.value);
      OwnerAlive(s, src, s.slots[src].ptr.value);
    }
    forall o: nat | o < |r.objs|
      ensures ObjOk(r, o) && MemberOk(r, o)
    {
      assert ObjOk(s, o) && MemberOk(s, o);
      ThreadsUpdate(s.threads, t, r.threads[t], o);
      OwnersUpdate(s.slots, m, r.slots[m], o);
    }
  }

  lemma IncMemberSlots(s: State, t: nat, r: State)
    requires Inv(s) && Next(s, Inc(t), r) && s.threads[t].pc.New? && s.threads[t].pc.phase == 0
    ensures SlotsOk(r)
  {
    var b, src := s.threads[t].pc.o, s.threads[t].pc.from.value;
    assert ThreadOk(s, t) && SlotOk(s, src) && MemberOk(s, b);
    var m := s.objs[b].member.value;
    UsedSettled(s, t, src);
    assert r.slots[..] == s.slots[m := r.slots[m]];
    if s.slots[src].ptr.Some? {
      assert ObjOk(s, s.slots[src].ptr.value);
      OwnerAlive(s, src, s.slots[src].ptr.value);
    }
    forall k: nat | k < |r.slots|
      ensures SlotOk(r, k)
    {
      assert SlotOk(s, k);
      SameBetween(s, r, t, k);
    }
  }

  lemma OtherThreadMade(s: State, u: nat, b: nat, m: nat, r: State)
    requires u < |s.threads| == |r.threads| && ThreadOk(s, u) && r.threads[u] == s.threads[u]
    requires b < |s.objs| == |r.objs| && m < |s.slots| && s.slots[m].member && s.objs[b].member == Some(m)
             && MemberOk(s, b)
    requires !(s.threads[u].pc.New? && s.threads[u].pc.o == b)
    requires forall o {:trigger r.objs[o]} :: 0 <= o < |s.objs| ==>
               r.objs[o].member == s.objs[o].member && r.objs[o].destroyed == s.objs[o].destroyed
    requires m < |r.slots| && r.slots == s.slots[m := r.slots[m]] && r.slots[m].member
    ensures ThreadOk(r, u)
  {
    if s.threads[u].pc.New? {
      var o := s.threads[u].pc.o;
      assert s.objs[o].member != Some(m);
      assert r.objs[o].member == s.objs[o].member;
    }
  }

  lemma IncMemberThreads(s: State, t: nat, r: State)
    requires Inv(s) && Next(s, Inc(t), r) && s.threads[t].pc.New? && s.threads[t].pc.phase == 0
    ensures ThreadsOk(r)
  {
    var b := s.threads[t].pc.o;
    assert ThreadOk(s, t) && MemberOk(s, b);
    var m := s.objs[b].member.value;
    assert r.slots == s.slots[m := r.slots[m]] && r.slots[m].member;
    forall u: nat | u < |r.threads|
      ensures ThreadOk(r, u)
    {
      assert ThreadOk(s, u);
      if u != t {
        OneMaker(s, t, u, b);
        OtherThreadMade(s, u, b, m, r);
      }
    }
  }

  /** A new buffer takes its reference to the device. */
  lemma IncMemberInv(s: State, t: nat, r: State)
    requires Inv(s) && Next(s, Inc(t), r) && s.threads[t].pc.New? && s.threads[t].pc.phase == 0
    ensures Inv(r)
  {
    IncMemberObjs(s, t, r);
    IncMemberSlots(s, t, r);
    IncMemberThreads(s, t, r);
    hide ObjsOk, MembersOk, SlotsOk, ThreadsOk;
    StillLocked(s, t, r.threads[t].pc, r);
  }

  /** An object is made by one thread only. */
  lemma OneMaker(s: State, t: nat, u: nat, b: nat)
    requires Inv(s) && t < |s.threads| && u < |s.threads| && b < |s.objs|
    requires s.threads[t].pc.New? && s.threads[t].pc.o == b
    ensures u != t ==> !(s.threads[u].pc.New? && s.threads[u].pc.o == b)
  {
    assert ObjOk(s, b) && MemberOk(s, b);
    if u != t {
      var x := Thread(Idle, [], None);
      ThreadsUpdate(s.threads, t, x, b);
      ThreadsUpdate(s.threads[t := x], u, x, b);
    }
  }

  lemma IncOwnObjs(s: State, t: nat, r: State)
    requires Inv(s) && Next(s, Inc(t), r) && s.threads[t].pc.New? && s.threads[t].pc.phase == 1
    ensures ObjsOk(r) && MembersOk(r)
  {
    var dst, b := s.threads[t].pc.dst, s.threads[t].pc.o;
    assert ThreadOk(s, t) && SlotOk(s, dst);
    forall o: nat | o < |r.objs|
      ensures ObjOk(r, o) && MemberOk(r, o)
    {
      assert ObjOk(s, o) && MemberOk(s, o);
      ThreadsUpdate(s.threads, t, r.threads[t], o);
      OwnersUpdate(s.slots, dst, Slot(Some(b), true, false), o);
    }
  }

  lemma IncOwnSlots(s: State, t: nat, r: State)
    requires Inv(s) && Next(s, Inc(t), r) && s.threads[t].pc.New? && s.threads[t].pc.phase == 1
    ensures SlotsOk(r)
  {
    var dst, b := s.threads[t].pc.dst, s.threads[t].pc.o;
    assert ThreadOk(s, t) && SlotOk(s, dst);
    forall k: nat | k < |r.slots|
      ensures SlotOk(r, k)
    {
      assert SlotOk(s, k);
      SameBetween(s, r, t, k);
    }
  }

  lemma IncOwnThreads(s: State, t: nat, r: State)
    requires Inv(s) && Next(s, Inc(t), r) && s.threads[t].pc.New? && s.threads[t].pc.phase == 1
    ensures ThreadsOk(r)
  {
    var dst, b := s.threads[t].pc.dst, s.threads[t].pc.o;
    assert ThreadOk(s, t) && SlotOk(s, dst);
    forall u: nat | u < |r.threads|
      ensures ThreadOk(r, u)
    {
      assert ThreadOk(s, u);
      if u != t {
        NotBoth(s, t, u, dst);
      }
    }
  }

  lemma IncOwnInv(s: State, t: nat, r: State)
    requires Inv(s) && Next(s, Inc(t), r) && s.threads[t].pc.New? && s.threads[t].pc.phase == 1
    ensures Inv(r)
  {
    IncOwnObjs(s, t, r);
    IncOwnSlots(s, t, r);
    IncOwnThreads(s, t, r);
    hide ObjsOk, MembersOk, SlotsOk, ThreadsOk;
    StillLocked(s, t, Idle, r);
  }

  /** The object is marked, and leaves the list of its thread. */
  lemma DestroyedObjs(s: State, t: nat)
    requires Inv(s) && t < |s.threads| && s.threads[t].todo != []
    ensures var b := s.threads[t].todo[0];
            && b < |s.objs| && s.objs[b].count == 0 && s.objs[b].destroyed == 0 && ObjsOk(Destroyed(s, t, b))
  {
    var b := s.threads[t].todo[0];
    assert ThreadOk(s, t) && ObjOk(s, b);
    ThreadsUpdate(s.threads, t, s.threads[t], b);
    var x := Destroyed(s, t, b);
    forall o: nat | o < |x.objs|
      ensures ObjOk(x, o)
    {
      assert ObjOk(s, o);
      ThreadsUpdate(s.threads, t, x.threads[t], o);
    }
  }

  lemma DestroyInv(s: State, t: nat, r: State)
    requires Inv(s) && Next(s, Destroy(t), r)
    ensures Inv(r)
  {
    var b := s.threads[t].todo[0];
    DestroyedObjs(s, t);
    var x := Destroyed(s, t, b);
    assert ThreadOk(s, t) && MemberOk(s, b);
    var m := s.objs[b].member;
    if m.Some? {
      assert SlotOk(s, m.value);
      ReleaseObjs(x, t, m.value);
    }
    hide Next, ObjsOk, Locked, Release;
    DestroyMembers(s, b, x, r);
    forall u: nat | u < |s.threads|
      ensures r.threads[u].pc == s.threads[u].pc
    {
      assert r.threads[u].pc == x.threads[u].pc;
    }
    DestroySlots(s, t, r, m);
    DestroyThreads(s, t, r, b, m);
    SameLocks(s, r);
  }

  lemma DestroyMembers(s: State, b: nat, x: State, r: State)
    requires Inv(s) && b < |s.objs| == |r.objs| && |x.objs| == |s.objs| && |r.slots| == |s.slots|
    requires forall o {:trigger x.objs[o]} :: 0 <= o < |s.objs| ==>
               x.objs[o].member == s.objs[o].member
                   && x.objs[o].destroyed == s.objs[o].destroyed + if o == b then 1 else 0
    requires forall o {:trigger r.objs[o]} :: 0 <= o < |s.objs| ==>
               r.objs[o].member == x.objs[o].member && r.objs[o].destroyed == x.objs[o].destroyed
    requires r.slots == s.slots || (s.objs[b].member.Some? && s.objs[b].member.value < |s.slots|
                                    && var m := s.objs[b].member.value;
                                       r.slots == s.slots[m := s.slots[m].(owns := false)])
    ensures MembersOk(r)
  {
    hide ObjsOk, Locked, SlotsOk, ThreadsOk;
    assert MemberOk(s, b);
    forall o: nat | o < |r.objs|
      ensures MemberOk(r, o)
    {
      assert MemberOk(s, o);
      assert r.objs[o].member == x.objs[o].member && r.objs[o].destroyed == x.objs[o].destroyed;
    }
  }

  lemma DestroySlots(s: State, t: nat, r: State, m: Option<nat>)
    requires Inv(s) && |r.threads| == |s.threads| && |r.objs| == |s.objs|
    requires forall u {:trigger r.threads[u]} :: 0 <= u < |s.threads| ==> r.threads[u].pc == s.threads[u].pc
    requires r.slots == s.slots || (m.Some? && m.value < |s.slots| && s.slots[m.value].member
                                    && r.slots == s.slots[m.value := s.slots[m.value].(owns := false)])
    ensures SlotsOk(r)
  {
    hide ObjsOk, MemberOk, Locked, ThreadOk;
    forall k: nat | k < |r.slots|
      ensures SlotOk(r, k)
    {
      assert SlotOk(s, k);
      if forall u {:trigger r.threads[u]} :: 0 <= u < |r.threads| ==> !Between(r.threads[u].pc, k) {
        forall u | 0 <= u < |s.threads|
          ensures !Between(s.threads[u].pc, k)
        {
          assert !Between(r.threads[u].pc, k);
        }
      }
    }
  }

  lemma DestroyThreads(s: State, t: nat, r: State, b: nat, m: Option<nat>)
    requires Inv(s) && |r.threads| == |s.threads| && |r.objs| == |s.objs| && t < |s.threads|
    requires s.threads[t].todo != [] && s.threads[t].todo[0] == b < |s.objs| && s.objs[b].member == m
    requires forall o {:trigger r.objs[o]} :: 0 <= o < |s.objs| ==>
               r.objs[o].member == s.objs[o].member && (o != b ==> r.objs[o].destroyed == s.objs[o].destroyed)
    requires forall u {:trigger r.threads[u]} :: 0 <= u < |s.threads| ==>
               && r.threads[u].pc == s.threads[u].pc && r.threads[u].temp == s.threads[u].temp
               && forall i :: 0 <= i < |r.threads[u].todo| ==> r.threads[u].todo[i] < |s.objs|
    requires r.slots == s.slots || (m.Some? && m.value < |s.slots| && s.slots[m.value].member
                                    && r.slots == s.slots[m.value := s.slots[m.value].(owns := false)])
    ensures ThreadsOk(r)
  {
    hide Locked, SlotOk, ObjsOk;
    forall u: nat | u < |r.threads|
      ensures ThreadOk(r, u)
    {
      assert ThreadOk(s, u);
      NotMaking(s, t, u, b);
      if s.threads[u].pc.New? {
        assert MemberOk(s, b) && r.objs[s.threads[u].pc.o].member == s.objs[s.threads[u].pc.o].member;
      }
    }
  }

  /** What is to be destroyed is not being made. */
  lemma NotMaking(s: State, t: nat, u: nat, b: nat)
    requires Inv(s) && t < |s.threads| && u < |s.threads| && b < |s.objs| && s.threads[t].todo != []
             && s.threads[t].todo[0] == b
    ensures !(s.threads[u].pc.New? && s.threads[u].pc.o == b)
  {
    assert ObjOk(s, b);
    var x := Thread(Idle, [], None);
    ThreadsUpdate(s.threads, t, x, b);
    if u != t {
      ThreadsUpdate(s.threads[t := x], u, x, b);
    }
  }

  // ----- runs

  lemma StepInv(s: State, step: Step, r: State)
    requires Inv(s) && Next(s, step, r)
    ensures Inv(r)
  {
    hide Inv;
    match step {
      case NewSlot => NewSlotInv(s, r);
      case BeginCopy(t, dst, src) => BeginSteps(s, step, r);
      case BeginMove(t, dst, src) => BeginSteps(s, step, r);
      case BeginClear(t, dst) => BeginSteps(s, step, r);
      case BeginNew(t, dst, from) => BeginNewInv(s, t, dst, from, r);
      case Inc(t) =>
        if s.threads[t].pc.CopyTo? {
          IncCopyInv(s, t, r);
        } else if s.threads[t].pc.phase == 0 {
          IncMemberInv(s, t, r);
        } else {
          IncOwnInv(s, t, r);
        }
      case Dec(t) => DecInv(s, t, r);
      case Store(t) =>
        if s.threads[t].pc.CopyTo? {
          StoreCopyInv(s, t, r);
        } else if s.threads[t].pc.MoveTo? {
          StoreMoveInv(s, t, r);
        } else {
          StoreClearInv(s, t, r);
        }
      case Destroy(t) => DestroyInv(s, t, r);
    }
  }

  lemma InitInv(s: State)
    requires Init(s)
    ensures Inv(s)
  {
    forall k | 0 <= k < |s.slots|
      ensures SlotOk(s, k)
    {
      assert s.slots[k] == NULL;
    }
    forall t | 0 <= t < |s.threads|
      ensures ThreadOk(s, t) && s.threads[t].pc.Idle?
    {
      assert s.threads[t] == Thread(Idle, [], None);
    }
  }

  lemma {:induction false} RunInv(states: seq<State>, steps: seq<Step>, k: nat)
    requires Run(states, steps) && k < |states|
    ensures Inv(states[k])
  {
    hide Inv, Next, Init;
    if k == 0 {
      InitInv(states[0]);
    } else {
      RunInv(states, steps, k - 1);
      assert Next(states[k - 1], steps[k - 1], states[k]);
      StepInv(states[k - 1], steps[k - 1], states[k]);
    }
  }

  /** In every state of every run the count of an object is the number of references, handles and half-finished
      copies that stand for it. No object is destroyed twice, and none that is destroyed is owned. */
  lemma CountIsOwners(states: seq<State>, steps: seq<Step>, k: nat, o: nat)
    requires Run(states, steps) && k < |states| && o < |states[k].objs|
    ensures var s := states[k];
            && s.objs[o].count == Owners(s.slots, o) + Flights(s.threads, o)
            && s.objs[o].destroyed <= 1 && (s.objs[o].destroyed == 1 ==>
               Owners(s.slots, o) == 0 && Flights(s.threads, o) == 0)
  {
    RunInv(states, steps, k);
    assert ObjOk(states[k], o);
  }

  /** An object is destroyed at the step after the one that took its count to zero, by the thread that did. */
  lemma DestroyedOnce(states: seq<State>, steps: seq<Step>, k: nat, o: nat)
    requires Run(states, steps) && k < |steps| && o < |states[k].objs| && o < |states[k + 1].objs|
    ensures states[k + 1].objs[o].destroyed != states[k].objs[o].destroyed ==>
              && steps[k].Destroy? && steps[k].t < |states[k].threads| && states[k].threads[steps[k].t].todo != []
              && states[k].threads[steps[k].t].todo[0] == o
              && states[k].objs[o].count == 0 && states[k].objs[o].destroyed == 0
                 && states[k + 1].objs[o].destroyed == 1
  {
    RunInv(states, steps, k);
    assert Next(states[k], steps[k], states[k + 1]);
    var s := states[k];
    assert ObjOk(s, o);
    if steps[k].Destroy? {
      ThreadsUpdate(s.threads, steps[k].t, s.threads[steps[k].t], o);
    }
  }

  /** Once all threads are quiet, exactly the objects that nobody owns have been destroyed. */
  lemma QuietMeansClean(states: seq<State>, steps: seq<Step>, k: nat, o: nat)
    requires Run(states, steps) && k < |states| && o < |states[k].objs|
    requires forall t {:trigger states[k].threads[t]} :: 0 <= t < |states[k].threads| ==> Quiet(states[k].threads[t])
    ensures states[k].objs[o].destroyed == 1 <==> Owners(states[k].slots, o) == 0
  {
    var s := states[k];
    RunInv(states, steps, k);
    assert ObjOk(s, o);
    forall t | 0 <= t < |s.threads|
      ensures s.threads[t].temp != Some(o) && Listed(s.threads[t].todo, o) == 0 && !s.threads[t].pc.New?
    {
      assert ThreadOk(s, t) && Quiet(s.threads[t]);
    }
    NoThreads(s.threads, o);
  }

  /** The device of a live buffer is live. */
  lemma DeviceAlive(states: seq<State>, steps: seq<Step>, k: nat, b: nat, d: nat)
    requires Run(states, steps) && k < |states| && b < |states[k].objs| && states[k].objs[b].destroyed == 0
    requires states[k].objs[b].member.Some? && states[k].objs[b].member.value < |states[k].slots|
    requires states[k].slots[states[k].objs[b].member.value].ptr == Some(d)
    ensures d < |states[k].objs| && states[k].objs[d].destroyed == 0
  {
    var s := states[k];
    RunInv(states, steps, k);
    var m := s.objs[b].member.value;
    assert MemberOk(s, b) && SlotOk(s, m) && ObjOk(s, d);
    OwnerAlive(s, m, d);
  }

  /** A step that changes a counter changes it by one, and not if the object is destroyed. */
  lemma StepTouches(s: State, step: Step, r: State, o: nat)
    requires Inv(s) && Inv(r) && Next(s, step, r) && o < |s.objs| && o < |r.objs| && s.objs[o].count != r.objs[o].count
    ensures s.objs[o].destroyed == 0
    ensures r.objs[o].count == s.objs[o].count + 1 || r.objs[o].count + 1 == s.objs[o].count
  {
    assert ObjOk(s, o) && ObjOk(r, o);
    hide ObjsOk, Locked, SlotOk, Inv;
    if step.Dec? {
      DecTouches(s, step.t, r, o);
    } else if step.Destroy? {
      DestroyTouches(s, step.t, r, o);
    }
  }

  lemma DecTouches(s: State, t: nat, r: State, o: nat)
    requires Inv(s) && Next(s, Dec(t), r) && o < |s.objs| && o < |r.objs| && s.objs[o].count != r.objs[o].count
    ensures r.objs[o].count + 1 == s.objs[o].count
  {
    DecIs(s, t, r);
    var k := s.threads[t].pc.dst;
    assert ThreadOk(s, t);
    UsedSettled(s, t, k);
    ReleaseObjs(s, t, k);
  }

  lemma DestroyTouches(s: State, t: nat, r: State, o: nat)
    requires Inv(s) && Next(s, Destroy(t), r) && o < |s.objs| && o < |r.objs| && s.objs[o].count != r.objs[o].count
    ensures r.objs[o].count + 1 == s.objs[o].count
  {
    var b := s.threads[t].todo[0];
    DestroyedObjs(s, t);
    if s.objs[b].member.Some? {
      assert MemberOk(s, b);
      ReleaseObjs(Destroyed(s, t, b), t, s.objs[b].member.value);
    }
  }

  /** No step touches the counter of a destroyed object, and none takes a counter below zero. */
  lemma NoDanglingAccess(states: seq<State>, steps: seq<Step>, k: nat, o: nat)
    requires Run(states, steps) && k < |steps| && o < |states[k].objs| && o < |states[k + 1].objs|
    requires states[k + 1].objs[o].count != states[k].objs[o].count
    ensures states[k].objs[o].destroyed == 0
    ensures states[k + 1].objs[o].count == states[k].objs[o].count + 1
            || states[k + 1].objs[o].count + 1 == states[k].objs[o].count
  {
    hide Next, Inv, Init;
    RunInv(states, steps, k);
    RunInv(states, steps, k + 1);
    assert Next(states[k], steps[k], states[k + 1]);
    StepTouches(states[k], steps[k], states[k + 1], o);
  }
}
