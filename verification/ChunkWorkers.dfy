/** The worker threads that share the blocks of a scanline image through an atomic counter (tinyexr.h, EncodeChunk),
    as a state machine whose steps may interleave in any order. */
module ChunkWorkers {
  import opened BitStrings
  import opened Options

  // ----- blocks of scanlines

  function NumBlocks(height: nat, lines: nat): nat
    requires lines > 0
  {
    (height + lines - 1) / lines
  }

  function StartY(lines: nat, i: nat): nat {
    lines * i
  }

  function EndY(height: nat, lines: nat, i: nat): nat {
    if lines * (i + 1) < height then lines * (i + 1) else height
  }

  /** Block i begins at start; the next one, if there is room, at start + lines. */
  lemma Bounds(x: nat, lines: nat, i: nat) returns (start: nat)
    requires lines > 0
    ensures start == StartY(lines, i) && lines * (i + 1) == start + lines
    ensures i < x / lines ==> start + lines <= x
    ensures i == x / lines ==> start <= x < start + lines
    ensures x / lines < i ==> x < start
  {
    start := lines * i;
    var q := x / lines;
    assert lines * (i + 1) == start + lines;
    assert q * lines <= x < q * lines + lines;
    if i < q {
      Ordered(i + 1, q, lines);
    } else if q < i {
      Ordered(q + 1, i, lines);
    }
  }

  lemma Ordered(a: nat, b: nat, c: nat)
    requires a <= b
    ensures c * a <= c * b && c * a == a * c && c * b == b * c
  {
    assert c * b == c * a + c * (b - a);
  }

  /** Every scanline lies in one block and in no other, and no block is empty. */
  lemma RowsCovered(height: nat, lines: nat, y: nat, i: nat)
    requires lines > 0 && y < height
    ensures y / lines < NumBlocks(height, lines)
    ensures StartY(lines, i) <= y < EndY(height, lines, i) <==> i == y / lines
    ensures i < NumBlocks(height, lines) ==> StartY(lines, i) < EndY(height, lines, i)
  {
    hide StartY;
    var start := Bounds(y, lines, i);
    var again := Bounds(height + lines - 1, lines, i);
    var last := Bounds(height + lines - 1, lines, y / lines);
    var row := Bounds(y, lines, y / lines);
  }

  // ----- the state machine

  /** What encoding each block gives; None if it fails. */
  type Results = seq<Option<seq<byte>>>

  datatype Worker = Ready | Fetched(i: nat) | Resized(i: nat) | Stopped

  /** blockCount is the atomic counter; times counts how often each block was encoded. */
  datatype State = State(blockCount: nat, workers: seq<Worker>, data: seq<seq<byte>>, invalid: bool, times: seq<nat>)

  datatype Step = Fetch(w: nat) | Resize(w: nat) | Encode(w: nat)

  /** The eight bytes reserved for the number and the size of a block. */
  function Reserved(): (r: seq<byte>)
    ensures |r| == 8
  {
    [0, 0, 0, 0, 0, 0, 0, 0]
  }

  /** What the sequential loop leaves in place of block i. */
  function Sequential(rs: Results, i: nat): seq<byte>
    requires i < |rs|
  {
    if rs[i].Some? then rs[i].value else Reserved()
  }

  function Threads(hardware: nat, n: nat): nat {
    var m := if hardware < 1 then 1 else hardware;
    if m < n then m else n
  }

  /** As many threads as the hardware runs, at least one, but no more than blocks. */
  lemma ThreadsMeans(hardware: nat, n: nat)
    ensures var t := Threads(hardware, n);
            t <= n && (t == n || t == hardware || (t == 1 && hardware == 0)) && (t > hardware ==> t <= 1)
  {
  }

  ghost predicate Init(rs: Results, hardware: nat, s: State) {
    && s.blockCount == 0 && !s.invalid
    && s.workers == seq(Threads(hardware, |rs|), _ => Ready)
    && s.data == seq(|rs|, _ => []) && s.times == seq(|rs|, _ => 0)
  }

  /** One step of one worker. */
  ghost predicate Next(rs: Results, s: State, step: Step, t: State) {
    match step
    case Fetch(w) =>
      && w < |s.workers| && s.workers[w].Ready?
      && t == s.(blockCount := s.blockCount + 1,
                 workers := s.workers[w := if s.blockCount < |rs| then Fetched(s.blockCount) else Stopped])
    case Resize(w) =>
      && w < |s.workers| && s.workers[w].Fetched? && s.workers[w].i < |s.data|
      && t == s.(workers := s.workers[w := Resized(s.workers[w].i)], data := s.data[s.workers[w].i := Reserved()])
    case Encode(w) =>
      && w < |s.workers| && s.workers[w].Resized?
      && var i := s.workers[w].i;
         && i < |s.data| && i < |rs| && i < |s.times|
         && t == State(s.blockCount, s.workers[w := Ready], if rs[i].Some? then s.data[i := rs[i].value] else s.data,
                       s.invalid || rs[i].None?, s.times[i := s.times[i] + 1])
  }

  /** A run, as the states it goes through. */
  ghost predicate Run(rs: Results, hardware: nat, states: seq<State>, steps: seq<Step>) {
    && |states| == |steps| + 1 && Init(rs, hardware, states[0])
    && forall k :: 0 <= k < |steps| ==> Next(rs, states[k], steps[k], states[k + 1])
  }

  // ----- what every run keeps

  predicate Holds(w: Worker, i: nat) {
    (w.Fetched? || w.Resized?) && w.i == i
  }

  /** No worker has block i. */
  ghost predicate Free(s: State, i: nat) {
    forall w :: 0 <= w < |s.workers| ==> !Holds(s.workers[w], i)
  }

  ghost predicate BlockOk(rs: Results, s: State, i: nat)
    requires |s.data| == |s.times| == |rs| && i < |rs|
  {
    if i >= s.blockCount then Free(s, i) && s.times[i] == 0
    else if Free(s, i) then s.times[i] == 1 && s.data[i] == Sequential(rs, i) && (rs[i].None? ==> s.invalid)
    else s.times[i] == 0
  }

  ghost predicate WorkerOk(rs: Results, s: State, w: nat)
    requires w < |s.workers| && |s.data| == |rs|
  {
    match s.workers[w]
    case Ready => true
    case Fetched(i) => i < s.blockCount && i < |rs|
    case Resized(i) => i < s.blockCount && i < |rs| && s.data[i] == Reserved()
    case Stopped => s.blockCount > |rs|
  }

  ghost predicate Alone(s: State, w: nat)
    requires w < |s.workers|
  {
    forall v {:trigger s.workers[v]} :: 0 <= v < |s.workers| && v != w && !s.workers[w].Ready? && !s.workers[w].Stopped? ==>
      !Holds(s.workers[v], s.workers[w].i)
  }

  ghost predicate Inv(rs: Results, s: State) {
    && |s.data| == |s.times| == |rs|
    && (forall i :: 0 <= i < |rs| ==> BlockOk(rs, s, i))
    && (forall w :: 0 <= w < |s.workers| ==> WorkerOk(rs, s, w) && Alone(s, w))
    && (s.invalid ==> exists i :: 0 <= i < |rs| && rs[i].None?)
    && (|rs| > 0 ==> |s.workers| > 0)
  }

  lemma InitInv(rs: Results, hardware: nat, s: State)
    requires Init(rs, hardware, s)
    ensures Inv(rs, s)
  {
  }

  /** A worker that changes hands with a block says which other blocks are free. */
  lemma FreeUpdate(s: State, w: nat, x: Worker, t: State, i: nat)
    requires w < |s.workers| && t.workers == s.workers[w := x]
    ensures !Holds(s.workers[w], i) && !Holds(x, i) ==> (Free(t, i) <==> Free(s, i))
    ensures Holds(x, i) ==> !Free(t, i)
    ensures Holds(s.workers[w], i) ==> !Free(s, i)
    ensures Holds(s.workers[w], i) && Alone(s, w) && !Holds(x, i) ==> Free(t, i)
  {
    if Holds(x, i) {
      assert Holds(t.workers[w], i);
    }
    if !Holds(s.workers[w], i) && !Holds(x, i) {
      if Free(s, i) {
        assert Free(t, i);
      } else {
        var v :| 0 <= v < |s.workers| && Holds(s.workers[v], i);
        assert Holds(t.workers[v], i);
      }
    }
  }

  lemma FetchInv(rs: Results, s: State, w: nat, t: State)
    requires Inv(rs, s) && Next(rs, s, Fetch(w), t)
    ensures Inv(rs, t)
  {
    forall i | 0 <= i < |rs|
      ensures BlockOk(rs, t, i)
    {
      assert BlockOk(rs, s, i);
      FreeUpdate(s, w, t.workers[w], t, i);
    }
    forall v | 0 <= v < |t.workers|
      ensures WorkerOk(rs, t, v) && Alone(t, v)
    {
      assert WorkerOk(rs, s, v) && Alone(s, v);
      if s.blockCount < |rs| {
        assert BlockOk(rs, s, s.blockCount);
        assert Free(s, s.blockCount);
      }
    }
  }

  lemma ResizeInv(rs: Results, s: State, w: nat, t: State)
    requires Inv(rs, s) && Next(rs, s, Resize(w), t)
    ensures Inv(rs, t)
  {
    assert WorkerOk(rs, s, w) && Alone(s, w);
    forall i | 0 <= i < |rs|
      ensures BlockOk(rs, t, i)
    {
      assert BlockOk(rs, s, i);
      FreeUpdate(s, w, t.workers[w], t, i);
    }
    forall v | 0 <= v < |t.workers|
      ensures WorkerOk(rs, t, v) && Alone(t, v)
    {
      assert WorkerOk(rs, s, v) && Alone(s, v);
    }
  }

  lemma EncodeInv(rs: Results, s: State, w: nat, t: State)
    requires Inv(rs, s) && Next(rs, s, Encode(w), t)
    ensures Inv(rs, t)
  {
    assert WorkerOk(rs, s, w) && Alone(s, w);
    var b := s.workers[w].i;
    forall i | 0 <= i < |rs|
      ensures BlockOk(rs, t, i)
    {
      assert BlockOk(rs, s, i);
      FreeUpdate(s, w, Ready, t, i);
    }
    forall v | 0 <= v < |t.workers|
      ensures WorkerOk(rs, t, v) && Alone(t, v)
    {
      assert WorkerOk(rs, s, v) && Alone(s, v);
    }
    if rs[b].None? {
      assert exists i :: 0 <= i < |rs| && rs[i].None?;
    }
  }

  lemma {:induction false} RunInv(rs: Results, hardware: nat, states: seq<State>, steps: seq<Step>, k: nat)
    requires Run(rs, hardware, states, steps) && k < |states|
    ensures Inv(rs, states[k])
  {
    hide Inv, Init, Next;
    if k == 0 {
      InitInv(rs, hardware, states[0]);
    } else {
      RunInv(rs, hardware, states, steps, k - 1);
      assert Next(rs, states[k - 1], steps[k - 1], states[k]);
      match steps[k - 1] {
        case Fetch(w) => FetchInv(rs, states[k - 1], w, states[k]);
        case Resize(w) => ResizeInv(rs, states[k - 1], w, states[k]);
        case Encode(w) => EncodeInv(rs, states[k - 1], w, states[k]);
      }
    }
  }

  ghost predicate AllStopped(s: State) {
    forall w :: 0 <= w < |s.workers| ==> s.workers[w].Stopped?
  }

  /** When all workers have stopped, whatever the interleaving was, every block was encoded exactly once, what they
      leave is what one loop would have left, and the error flag is set just when some block failed. */
  lemma WorkIsDone(rs: Results, hardware: nat, states: seq<State>, steps: seq<Step>)
    requires Run(rs, hardware, states, steps) && AllStopped(states[|steps|])
    ensures var t := states[|steps|];
            && t.times == seq(|rs|, _ => 1)
            && t.data == seq(|rs|, i requires 0 <= i < |rs| => Sequential(rs, i))
            && (t.invalid <==> exists i :: 0 <= i < |rs| && rs[i].None?)
  {
    var t := states[|steps|];
    RunInv(rs, hardware, states, steps, |steps|);
    forall i | 0 <= i < |rs|
      ensures t.times[i] == 1 && t.data[i] == Sequential(rs, i) && (rs[i].None? ==> t.invalid)
    {
      assert BlockOk(rs, t, i);
      assert WorkerOk(rs, t, 0);
      assert t.workers[0].Stopped?;
      assert Free(t, i);
    }
  }

  // ----- every run ends

  function Weight(w: Worker): nat {
    match w
    case Ready => 1
    case Fetched(_) => 3
    case Resized(_) => 2
    case Stopped => 0
  }

  function Weights(ws: seq<Worker>): nat {
    if ws == [] then 0 else Weights(ws[..|ws| - 1]) + Weight(ws[|ws| - 1])
  }

  /** How many steps can still be made, at most. */
  function Left(n: nat, s: State): nat {
    Weights(s.workers) + if s.blockCount < n then 3 * (n - s.blockCount) else 0
  }

  lemma {:induction false} WeightsUpdate(ws: seq<Worker>, w: nat, x: Worker)
    requires w < |ws|
    ensures Weights(ws[w := x]) == Weights(ws) - Weight(ws[w]) + Weight(x)
  {
    var n := |ws| - 1;
    if w == n {
      assert ws[w := x][..n] == ws[..n];
    } else {
      assert ws[w := x][..n] == ws[..n][w := x];
      WeightsUpdate(ws[..n], w, x);
    }
  }

  lemma StepUsesUp(rs: Results, s: State, step: Step, t: State)
    requires Next(rs, s, step, t)
    ensures Left(|rs|, t) < Left(|rs|, s)
  {
    WeightsUpdate(s.workers, step.w, t.workers[step.w]);
  }

  lemma {:induction false} AllReady(n: nat)
    ensures Weights(seq(n, _ => Ready)) == n
  {
    if n > 0 {
      AllReady(n - 1);
      assert seq(n, _ => Ready)[..n - 1] == seq(n - 1, _ => Ready);
    }
  }

  lemma {:induction false} RunLeft(rs: Results, hardware: nat, states: seq<State>, steps: seq<Step>, k: nat)
    requires Run(rs, hardware, states, steps) && k < |states|
    ensures k + Left(|rs|, states[k]) <= 3 * |rs| + Threads(hardware, |rs|)
  {
    if k == 0 {
      AllReady(Threads(hardware, |rs|));
    } else {
      RunLeft(rs, hardware, states, steps, k - 1);
      assert Next(rs, states[k - 1], steps[k - 1], states[k]);
      StepUsesUp(rs, states[k - 1], steps[k - 1], states[k]);
    }
  }

  /** No run goes on for ever, and none gets stuck before all workers have stopped. */
  lemma RunsEnd(rs: Results, hardware: nat, states: seq<State>, steps: seq<Step>)
    requires Run(rs, hardware, states, steps)
    ensures |steps| <= 3 * |rs| + Threads(hardware, |rs|)
    ensures AllStopped(states[|steps|]) || exists step, t :: Next(rs, states[|steps|], step, t)
  {
    RunLeft(rs, hardware, states, steps, |steps|);
    RunInv(rs, hardware, states, steps, |steps|);
    var s := states[|steps|];
    if !AllStopped(s) {
      var w: nat :| w < |s.workers| && !s.workers[w].Stopped?;
      assert WorkerOk(rs, s, w);
      match s.workers[w] {
        case Ready =>
          assert Next(rs, s, Fetch(w), s.(blockCount := s.blockCount + 1,
                                          workers := s.workers[w := if s.blockCount < |rs| then Fetched(s.blockCount) else Stopped]));
        case Fetched(i) =>
          assert Next(rs, s, Resize(w), s.(workers := s.workers[w := Resized(i)], data := s.data[i := Reserved()]));
        case Resized(i) =>
          assert Next(rs, s, Encode(w), State(s.blockCount, s.workers[w := Ready],
                                              if rs[i].Some? then s.data[i := rs[i].value] else s.data,
                                              s.invalid || rs[i].None?, s.times[i := s.times[i] + 1]));
      }
    }
  }
}
