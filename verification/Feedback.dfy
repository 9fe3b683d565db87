/** What the two ends observe about the network: the receiver's loss ratio over a window, and the sender's
    pacing by a bucket of tokens. Ratios and times are real numbers. */
module Feedback {
  import opened Wire

  // ---------- Loss window ----------

  /** A packet seen: frame index and sequence id. */
  type Seen = (nat, nat)

  ghost function SeenSet(log: seq<Seen>): set<Seen> {
    set p | p in log
  }

  /** All ids up to the largest seen of each frame. */
  ghost function Expected(log: seq<Seen>): set<Seen> {
    set p, i | p in log && 0 <= i <= p.1 :: (p.0, i)
  }

  /** The share of the expected packets that were never seen. */
  ghost function LossOf(log: seq<Seen>): real {
    if |Expected(log)| == 0 then 0.0 else |Expected(log) - SeenSet(log)| as real / |Expected(log)| as real
  }

  /** Neither order nor repetition matters. */
  lemma LossSame(log: seq<Seen>, log': seq<Seen>)
    requires forall p :: p in log <==> p in log'
    ensures LossOf(log) == LossOf(log')
  {
    assert SeenSet(log) == SeenSet(log');
    assert Expected(log) == Expected(log');
  }

  datatype FrameWindow = FrameWindow(maxSeq: nat, seen: set<nat>)

  const FEEDBACK_WINDOW: real := 0.5

  ghost predicate FrameRight(w: FrameWindow, log: seq<Seen>, f: nat) {
    && (forall i: nat :: i in w.seen <==> (f, i) in log)
    && w.maxSeq in w.seen && (forall i :: i in w.seen ==> i <= w.maxSeq)
  }

  function Saturated(n: nat): nat { Min(n, U64 - 1) }

  class LossFeedbackWindow {
    var startedAt: Option<real>
    var frames: map<nat, FrameWindow>
    ghost var log: seq<Seen>

    ghost predicate Valid()
      reads this
    {
      && (forall f: nat :: f in frames <==> exists i: nat :: (f, i) in log)
      && (forall f :: f in frames ==> FrameRight(frames[f], log, f))
      && (startedAt.None? ==> log == [])
    }

    constructor ()
      ensures Valid() && log == [] && startedAt == None
    {
      startedAt, frames, log := None, map[], [];
    }

    method ObservePacket(at: real, frame: nat, seqId: nat)
      requires Valid()
      modifies this
      ensures Valid() && log == old(log) + [(frame, seqId)]
      ensures startedAt == if old(startedAt).None? then Some(at) else old(startedAt)
    {
      if startedAt.None? { startedAt := Some(at); }
      var w := if frame in frames then frames[frame] else FrameWindow(0, {});
      ghost var before := log;
      var w' := FrameWindow(Max(w.maxSeq, seqId), w.seen + {seqId});
      frames := frames[frame := w'];
      log := log + [(frame, seqId)];
      forall f: nat ensures f in frames <==> exists i: nat :: (f, i) in log {
        if f in frames && f != frame {
          var i: nat :| (f, i) in before;
          assert (f, i) in log;
        }
        if f == frame { assert (f, seqId) in log; }
      }
      forall i: nat ensures i in w'.seen <==> (frame, i) in log {
        if frame !in old(frames) { assert (frame, i) !in before; }
      }
    }

    /** The loss ratio when the window is over; then a new window begins. */
    method MaybeFlushLossRatio(at: real) returns (ratio: Option<real>)
      requires Valid() && |frames| <= 0x8000_0000 && (forall f :: f in frames ==> frames[f].maxSeq < U32)
      modifies this
      ensures Valid()
      ensures ratio.Some? <==> old(startedAt).Some? && at - old(startedAt).value >= FEEDBACK_WINDOW
      ensures ratio.Some? ==> ratio.value == LossOf(old(log)) && log == [] && startedAt == Some(at)
      ensures ratio.None? ==> log == old(log) && startedAt == old(startedAt)
    {
      if startedAt.None? || at - startedAt.value < FEEDBACK_WINDOW {
        return None;
      }
      var expected, received := CountPackets();
      ghost var log0 := log;
      startedAt := Some(at);
      frames, log := map[], [];
      if expected == 0 {
        return Some(0.0);
      }
      LostCount(log0);
      var lost := if expected >= received then expected - received else 0;
      var share := lost as real / expected as real;
      ratio := Some(if share < 0.0 then 0.0 else if share > 1.0 then 1.0 else share);
      ShareFits(lost, expected);
    }

    lemma ShareFits(lost: nat, expected: nat)
      requires lost <= expected && expected > 0
      ensures 0.0 <= lost as real / expected as real <= 1.0
    {}

    /** Add up what each frame expects and what it has seen; nothing saturates. */
    method CountPackets() returns (expected: nat, received: nat)
      requires Valid() && |frames| <= 0x8000_0000 && (forall f :: f in frames ==> frames[f].maxSeq < U32)
      ensures expected == |Expected(log)| && received == |SeenSet(log)|
    {
      hide Expected, SeenSet, InFrames;
      expected, received := 0, 0;
      var left := frames.Keys;
      ghost var done: set<nat> := {};
      NoFrames();
      while left != {}
        invariant done + left == frames.Keys && done * left == {} && |done| + |left| == |frames|
        invariant expected == |InFrames(Expected(log), done)| <= |done| * U32
        invariant received == |InFrames(SeenSet(log), done)| <= expected
        decreases |left|
      {
        var f :| f in left;
        var w := frames[f];
        FrameSizes(log, w, f);
        Adds(Expected(log), done, f);
        Adds(SeenSet(log), done, f);
        Unsaturated(expected + (w.maxSeq + 1), |done| + 1);
        Unsaturated(received + |w.seen|, |done| + 1);
        expected := Saturated(expected + (w.maxSeq + 1));
        received := Saturated(received + |w.seen|);
        left := left - {f};
        done := done + {f};
      }
      assert done == frames.Keys;
      AllFrames();
    }

    lemma NoFrames()
      ensures InFrames(Expected(log), {}) == {} && InFrames(SeenSet(log), {}) == {}
    {}

    lemma Unsaturated(n: nat, frameCount: nat)
      requires n <= frameCount * U32 && frameCount <= 0x8000_0000
      ensures Saturated(n) == n
    {}

    lemma AllFrames()
      requires Valid()
      ensures InFrames(Expected(log), frames.Keys) == Expected(log)
        && InFrames(SeenSet(log), frames.Keys) == SeenSet(log)
    {
      forall p | p in Expected(log) ensures p.0 in frames {
        var q, i :| q in log && 0 <= i <= q.1 && (q.0, i) == p;
        assert (q.0, q.1) in log;
      }
      forall p | p in log ensures p.0 in frames { assert (p.0, p.1) in log; }
    }
  }

  ghost function InFrames(s: set<Seen>, done: set<nat>): set<Seen> {
    set p | p in s && p.0 in done
  }

  lemma Adds(s: set<Seen>, done: set<nat>, f: nat)
    requires f !in done
    ensures |InFrames(s, done + {f})| == |InFrames(s, done)| + |InFrames(s, {f})|
  {
    assert InFrames(s, done + {f}) == InFrames(s, done) + InFrames(s, {f});
    assert InFrames(s, done) * InFrames(s, {f}) == {};
  }

  ghost function Pairs(f: nat, ids: set<nat>): set<Seen> {
    set i | i in ids :: (f, i)
  }

  lemma {:induction false} PairsSize(f: nat, ids: set<nat>)
    ensures |Pairs(f, ids)| == |ids|
  {
    if ids == {} {
      assert Pairs(f, ids) == {};
    } else {
      var i :| i in ids;
      PairsSize(f, ids - {i});
      assert Pairs(f, ids) == Pairs(f, ids - {i}) + {(f, i)};
    }
  }

  ghost function UpTo(n: nat): (r: set<nat>)
    ensures forall i: nat :: i in r <==> i < n
  {
    if n == 0 then {} else UpTo(n - 1) + {n - 1}
  }

  lemma {:induction false} UpToSize(n: nat)
    ensures |UpTo(n)| == n
  {
    if n > 0 { UpToSize(n - 1); }
  }

  lemma ExpectedOf(log: seq<Seen>, w: FrameWindow, f: nat)
    requires FrameRight(w, log, f)
    ensures InFrames(Expected(log), {f}) == Pairs(f, UpTo(w.maxSeq + 1))
  {
    hide UpTo;
    assert (f, w.maxSeq) in log;
    forall p | p in InFrames(Expected(log), {f}) ensures p in Pairs(f, UpTo(w.maxSeq + 1)) {
      var q, i :| q in log && 0 <= i <= q.1 && (q.0, i) == p;
      assert (f, q.1) in log;
    }
  }

  lemma SeenOf(log: seq<Seen>, w: FrameWindow, f: nat)
    requires FrameRight(w, log, f)
    ensures InFrames(SeenSet(log), {f}) == Pairs(f, w.seen)
  {
    forall p | p in InFrames(SeenSet(log), {f}) ensures p in Pairs(f, w.seen) { assert (f, p.1) in log; }
  }

  /** What one frame contributes. */
  lemma FrameSizes(log: seq<Seen>, w: FrameWindow, f: nat)
    requires FrameRight(w, log, f)
    ensures |InFrames(Expected(log), {f})| == w.maxSeq + 1 && |InFrames(SeenSet(log), {f})| == |w.seen| <= w.maxSeq + 1
  {
    hide InFrames, Expected, SeenSet, Pairs, UpTo;
    ExpectedOf(log, w, f);
    SeenOf(log, w, f);
    UpToSize(w.maxSeq + 1);
    PairsSize(f, UpTo(w.maxSeq + 1));
    PairsSize(f, w.seen);
    SubsetSmaller(w.seen, UpTo(w.maxSeq + 1));
  }

  lemma {:induction false} SubsetSmaller<T>(a: set<T>, b: set<T>)
    requires a <= b
    ensures |a| <= |b| && |b - a| == |b| - |a|
  {
    assert b == a + (b - a);
  }

  lemma LostCount(log: seq<Seen>)
    ensures SeenSet(log) <= Expected(log) && |Expected(log) - SeenSet(log)| == |Expected(log)| - |SeenSet(log)|
  {
    forall p | p in log ensures p in Expected(log) { assert (p.0, p.1) == p; }
    SubsetSmaller(SeenSet(log), Expected(log));
  }

  // ---------- Pacer ----------

  function MaxReal(a: real, b: real): real { if a > b then a else b }

  function MinReal(a: real, b: real): real { if a < b then a else b }

  class Pacer {
    const rate: nat
    const maxBurst: real
    var tokens: real
    var lastRefill: real

    ghost const start: real
    ghost var charged: real

    /** The bytes let through so far, and the tokens left, are covered by the burst and the time passed. */
    ghost predicate Valid()
      reads this
    {
      && maxBurst > 0.0 && 0.0 <= tokens <= maxBurst && start <= lastRefill
      && (rate > 0 ==> charged + tokens <= maxBurst + rate as real * (lastRefill - start))
    }

    constructor (rate: nat, now: real)
      ensures Valid() && this.rate == rate && charged == 0.0 && lastRefill == now == start
      ensures maxBurst == MaxReal(rate as real * 0.25, 16384.0)
    {
      this.rate := rate;
      maxBurst := MaxReal(rate as real * 0.25, 16384.0);
      tokens, lastRefill, start, charged := MaxReal(rate as real * 0.25, 16384.0), now, now, 0.0;
    }

    /** What the bound allows at the last refill. */
    ghost function Allowed(): real
      reads `lastRefill
    {
      maxBurst + rate as real * (lastRefill - start)
    }

    /** Tokens for the time that has passed. */
    method Refill(now: real)
      requires Valid() && rate > 0 && now >= lastRefill
      modifies `tokens, `lastRefill
      ensures Valid() && lastRefill == now && Allowed() == old(Allowed()) + rate as real * (now - old(lastRefill))
      ensures tokens == MinReal(old(tokens) + (now - old(lastRefill)) * rate as real, maxBurst)
    {
      var elapsed := now - lastRefill;
      TimesSplit(rate as real, lastRefill - start, elapsed);
      Grows(rate as real, elapsed);
      lastRefill := now;
      tokens := MinReal(tokens + elapsed * rate as real, maxBurst);
    }

    /** The most tokens a packet may find: key frames more, packets on a jittery link fewer. */
    function Budget(keyframe: bool, jitter: nat): (r: real)
      requires maxBurst > 0.0
      ensures r >= 1500.0
    {
      MaxReal(maxBurst * (if keyframe then 2.5 else 1.0) / (1.0 + jitter as real / 200000.0), 1500.0)
    }

    /** Unless it is the least there is, it is the burst, two and a half times that for a key frame, and shrinks as
        jitter grows: to half of it at 200 milliseconds. */
    lemma BudgetShare(keyframe: bool, jitter: nat)
      requires maxBurst > 0.0 && Budget(keyframe, jitter) > 1500.0
      ensures Budget(keyframe, jitter) * (200000.0 + jitter as real)
        == maxBurst * (if keyframe then 2.5 else 1.0) * 200000.0
    {
      var whole, penalty := maxBurst * (if keyframe then 2.5 else 1.0), 1.0 + jitter as real / 200000.0;
      assert whole / penalty * penalty == whole;
      assert penalty * 200000.0 == 200000.0 + jitter as real;
      Products(whole / penalty, penalty, 200000.0);
    }

    lemma Products(a: real, b: real, c: real)
      ensures a * (b * c) == a * b * c
    {}

    /** The tokens a packet finds at a time. */
    function Found(keyframe: bool, jitter: nat, now: real): real
      requires maxBurst > 0.0
      reads `tokens, `lastRefill
    {
      MinReal(MinReal(tokens + (now - lastRefill) * rate as real, maxBurst), Budget(keyframe, jitter))
    }

    /** Wait until there are tokens for a packet, and take them. The clock shows now at the call; a sleep
        takes as long as asked for and oversleep longer. A packet that finds its tokens does not wait, and none
        waits longer than its own bytes take at the rate. */
    method Pace(packetSize: nat, keyframe: bool, jitter: nat, now: real, oversleep: real)
      requires Valid() && now >= lastRefill && oversleep >= 0.0
      modifies this
      ensures Valid() && charged == old(charged) + packetSize as real
      ensures rate > 0 ==> now <= lastRefill <= now + packetSize as real / rate as real + oversleep
      ensures var found, needed := old(Found(keyframe, jitter, now)), packetSize as real;
        && (rate > 0 && found >= needed ==> lastRefill == now && tokens == found - needed)
        && (rate > 0 && found < needed ==> lastRefill == now + (needed - found) / rate as real + oversleep)
        && (rate > 0 && found < needed ==>
              tokens == MaxReal(MinReal(needed + oversleep * rate as real, maxBurst) - needed, 0.0))
      ensures rate == 0 ==> lastRefill == old(lastRefill) && tokens == old(tokens)
    {
      hide Allowed, Budget;
      var needed := packetSize as real;
      if rate == 0 {
        charged := charged + needed;
        return;
      }
      Refill(now);
      CapTokens(keyframe, jitter);
      NoWait(rate as real, needed);
      if tokens < needed { Sleep(needed, oversleep); }
      Take(needed);
    }

    lemma NoWait(r: real, needed: real)
      requires r > 0.0 && needed >= 0.0
      ensures needed / r >= 0.0
    {}

    /** Sleep as long as the missing tokens take, and longer by oversleep. */
    method Sleep(needed: real, oversleep: real)
      requires Valid() && rate > 0 && tokens < needed && oversleep >= 0.0 && charged + tokens <= Allowed()
      modifies `tokens, `lastRefill
      ensures Valid() && charged + needed <= Allowed()
      ensures lastRefill == old(lastRefill) + (needed - old(tokens)) / rate as real + oversleep
      ensures old(lastRefill) <= lastRefill <= old(lastRefill) + needed / rate as real + oversleep
      ensures tokens == MinReal(needed + oversleep * rate as real, maxBurst) && oversleep * rate as real >= 0.0
    {
      var sleepSecs := (needed - tokens) / rate as real;
      Slept(rate as real, needed - tokens, oversleep);
      Shorter(rate as real, tokens, needed);
      Grows(rate as real, sleepSecs + oversleep);
      Refill(lastRefill + sleepSecs + oversleep);
    }

    /** The budget of a packet caps the tokens. */
    method CapTokens(keyframe: bool, jitter: nat)
      requires Valid()
      modifies `tokens
      ensures Valid() && tokens == MinReal(old(tokens), Budget(keyframe, jitter))
      ensures charged + tokens <= Allowed() || rate == 0
    {
      var budget := Budget(keyframe, jitter);
      if tokens > budget {
        tokens := budget;
      }
    }

    method Take(needed: real)
      requires Valid() && rate > 0 && charged + needed <= Allowed() && needed >= 0.0
      modifies `tokens, `charged
      ensures Valid() && charged == old(charged) + needed && tokens == MaxReal(old(tokens) - needed, 0.0)
    {
      tokens := MaxReal(tokens - needed, 0.0);
      charged := charged + needed;
    }

    lemma TimesSplit(r: real, a: real, b: real)
      ensures r * (a + b) == r * a + r * b
    {}

    lemma Grows(r: real, a: real)
      requires r >= 0.0 && a >= 0.0
      ensures a * r == r * a >= 0.0
    {}

    lemma Positive(r: real, a: real)
      requires r > 0.0 && a > 0.0
      ensures a * r > 0.0
    {}

    lemma Shorter(r: real, t: real, needed: real)
      requires r > 0.0 && 0.0 <= t <= needed
      ensures (needed - t) / r <= needed / r
    {
      var a, b := (needed - t) / r, needed / r;
      assert a * r == needed - t && b * r == needed;
      TimesSplit(r, a, -b);
      if a > b { Positive(r, a - b); }
    }

    lemma Slept(r: real, deficit: real, oversleep: real)
      requires r > 0.0 && deficit > 0.0 && oversleep >= 0.0
      ensures deficit / r > 0.0 && (deficit / r + oversleep) * r == deficit + oversleep * r && oversleep * r >= 0.0
    {
      assert r * (deficit / r) == deficit;
      TimesSplit(r, deficit / r, oversleep);
      Grows(r, oversleep);
    }

    /** At any time no more has been let through than the burst and the rate allow. */
    lemma Bound(now: real)
      requires Valid() && rate > 0 && now >= lastRefill
      ensures charged <= maxBurst + rate as real * (now - start)
    {
      Grows(rate as real, now - lastRefill);
      TimesSplit(rate as real, lastRefill - start, now - lastRefill);
    }
  }

  /** Without a rate there is no bound: the pacer lets everything through at once. */
  method Unpaced(bytes: nat, now: real) returns (p: Pacer)
    ensures p.rate == 0 && p.charged == bytes as real && p.lastRefill == now == p.start
  {
    p := new Pacer(0, now);
    p.Pace(bytes, false, 0, now, 0.0);
  }
}
