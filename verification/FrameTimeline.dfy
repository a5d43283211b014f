/** The frames of an animation and the one that is shown, with time running at its own pace
    (acceleration 1). */
module FrameTimeline {

  datatype Frame<T> = Frame(duration: int, value: T, startTime: int)

  /** When the frame at `k` begins, or the end for the number of all frames. */
  function TimeOf<T>(begin: int, frames: seq<Frame<T>>, k: nat): int
    requires k <= |frames|
  {
    if k == 0 then begin else TimeOf(begin, frames, k - 1) + frames[k - 1].duration
  }

  /** The frames follow one another without gap or overlap. */
  ghost predicate Tiled<T>(begin: int, frames: seq<Frame<T>>) {
    forall k :: 0 <= k < |frames| ==> frames[k].startTime == TimeOf(begin, frames, k)
  }

  lemma {:induction false} TimeOfPrefix<T>(begin: int, a: seq<Frame<T>>, b: seq<Frame<T>>, k: nat)
    requires k <= |a| && k <= |b| && forall i :: 0 <= i < k ==> a[i].duration == b[i].duration
    ensures TimeOf(begin, a, k) == TimeOf(begin, b, k)
  {
    if k > 0 {
      TimeOfPrefix(begin, a, b, k - 1);
    }
  }

  lemma {:induction false} TimeOfSuffix<T>(begin: int, frames: seq<Frame<T>>, j: nat, k: nat)
    requires j <= k <= |frames|
    ensures TimeOf(TimeOf(begin, frames, j), frames[j..], k - j) == TimeOf(begin, frames, k)
  {
    if k > j {
      TimeOfSuffix(begin, frames, j, k - 1);
    }
  }

  lemma {:induction false} TimeOfMoved<T>(begin: int, by_: int, frames: seq<Frame<T>>, k: nat)
    requires k <= |frames|
    ensures TimeOf(begin + by_, frames, k) == TimeOf(begin, frames, k) + by_
  {
    if k > 0 {
      TimeOfMoved(begin, by_, frames, k - 1);
    }
  }

  /** Frames that all begin later by the same time follow one another from the later begin. */
  lemma TiledMoved<T>(begin: int, by_: int, was: seq<Frame<T>>, now: seq<Frame<T>>)
    requires Tiled(begin, was) && |now| == |was|
    requires forall k :: 0 <= k < |now| ==> now[k] == was[k].(startTime := was[k].startTime + by_)
    ensures Tiled(begin + by_, now)
    ensures forall k :: 0 <= k <= |now| ==> TimeOf(begin + by_, now, k) == TimeOf(begin, was, k) + by_
  {
    forall k | 0 <= k <= |now|
      ensures TimeOf(begin + by_, now, k) == TimeOf(begin, was, k) + by_
    {
      TimeOfPrefix(begin + by_, now, was, k);
      TimeOfMoved(begin, by_, was, k);
    }
    forall k | 0 <= k < |now|
      ensures now[k].startTime == TimeOf(begin + by_, now, k)
    {
      assert was[k].startTime == TimeOf(begin, was, k);
    }
  }

  lemma TiledAppend<T>(begin: int, frames: seq<Frame<T>>, duration: int, value: T)
    requires Tiled(begin, frames)
    ensures var end := TimeOf(begin, frames, |frames|);
            var now := frames + [Frame(duration, value, end)];
            && Tiled(begin, now) && TimeOf(begin, now, |now|) == end + duration
            && end == (if frames == [] then begin else frames[|frames| - 1].startTime + frames[|frames| - 1].duration)
  {
    var now := frames + [Frame(duration, value, TimeOf(begin, frames, |frames|))];
    forall k | 0 <= k <= |frames|
      ensures TimeOf(begin, now, k) == TimeOf(begin, frames, k)
    {
      TimeOfPrefix(begin, now, frames, k);
    }
  }

  class Animated<T> {
    var startingFrameTime: int
    var doesNotChange: bool
    var started: bool
    var forceNextUpdate: bool
    var frames: seq<Frame<T>>
    var startTick: int
    var cycles: bool
    var lastUpdateTick: int
    var currentFrameKey: nat

    ghost function End(): int
      reads this
    {
      TimeOf(startingFrameTime, frames, |frames|)
    }

    /** The animation time of the last update of a started animation. */
    function Now(): int
      reads this
    {
      lastUpdateTick - startTick + startingFrameTime
    }

    ghost predicate Contiguous()
      reads this
    {
      Tiled(startingFrameTime, frames)
    }

    /** The frames are contiguous; the shown frame is one of them, and it is the first or has begun. */
    ghost predicate Valid()
      reads this
    {
      && Contiguous()
      && (frames == [] ==> currentFrameKey == 0)
      && (frames != [] ==> currentFrameKey < |frames|)
      && (started && currentFrameKey > 0 ==> frames[currentFrameKey].startTime <= Now())
    }

    constructor (startTime: int)
      ensures Valid() && !started && frames == [] && startingFrameTime == startTime
      ensures doesNotChange && !forceNextUpdate && !cycles && startTick == 0 && lastUpdateTick == 0 && currentFrameKey == 0
    {
      startingFrameTime, doesNotChange, started, forceNextUpdate := startTime, true, false, false;
      frames, startTick, cycles, lastUpdateTick, currentFrameKey := [], 0, false, 0, 0;
    }

    function EndTime(): (t: int)
      requires Contiguous()
      reads this
      ensures t == End()
    {
      if frames == [] then startingFrameTime
      else var last := frames[|frames| - 1]; last.startTime + last.duration
    }

    function CurrentFrameEnd(): int
      requires Valid()
      reads this
    {
      if frames == [] then startingFrameTime
      else frames[currentFrameKey].startTime + frames[currentFrameKey].duration
    }

    /** `add_frame`: the new frame begins where the last one ends. */
    method AddFrame(duration: int, value: T, forceChange: bool)
      requires Valid()
      modifies `frames, `doesNotChange
      ensures Valid() && End() == old(End()) + duration
      ensures frames == old(frames) + [Frame(duration, value, old(End()))]
      ensures doesNotChange == (old(frames) == [] && !forceChange)
    {
      hide Tiled, TimeOf;
      TiledAppend(startingFrameTime, frames, duration, value);
      if frames == [] {
        doesNotChange := !forceChange;
        frames := [Frame(duration, value, startingFrameTime)];
        assert [] + frames == frames;
      } else {
        doesNotChange := false;
        var last := frames[|frames| - 1];
        frames := frames + [Frame(duration, value, last.startTime + last.duration)];
      }
    }

    /** `start_animation`: the clock is set so that the animation is at `startTime` now. */
    method StartAnimation(startTime: int, cycles: bool, currentTicks: int)
      requires Valid()
      modifies `started, `lastUpdateTick, `startTick, `cycles, `currentFrameKey, `forceNextUpdate
      ensures Valid() && started && this.cycles == cycles && Now() == startTime
      ensures currentFrameKey == 0 && lastUpdateTick == currentTicks && forceNextUpdate == (frames != [])
    {
      started := true;
      lastUpdateTick := currentTicks;
      startTick := lastUpdateTick + (startingFrameTime - startTime);
      this.cycles := cycles;
      currentFrameKey := 0;
      forceNextUpdate := frames != [];
    }

    /** The cycle loop of `update_last_draw_time`: whole cycles are cut off until the time is not past the
        end. */
    method CutExtraTime()
      requires Valid() && started
      modifies `startTick, `currentFrameKey
      ensures Now() == CutTime(old(Now()), End(), Cycle(startingFrameTime, frames))
      ensures currentFrameKey == if old(Now()) > End() then 0 else old(currentFrameKey)
      ensures Valid() && Now() <= End()
    {
      ghost var time, key := Now(), currentFrameKey;
      while Now() > EndTime()
        invariant Now() <= time && currentFrameKey == if Now() == time then key else 0
        invariant CutTime(Now(), End(), Cycle(startingFrameTime, frames)) == CutTime(time, End(), Cycle(startingFrameTime, frames))
        decreases Now() - EndTime()
      {
        startTick := startTick + Cycle(startingFrameTime, frames);
        currentFrameKey := 0;
      }
    }

    /** `update_last_draw_time` of a started animation at a tick no earlier than the last one. */
    method UpdateLastDrawTime(currentTicks: int)
      requires Valid() && started && lastUpdateTick <= currentTicks
      modifies `lastUpdateTick, `forceNextUpdate, `doesNotChange, `startTick, `currentFrameKey
      ensures Valid() && lastUpdateTick == currentTicks && !forceNextUpdate
      ensures doesNotChange == (old(doesNotChange) || (!old(forceNextUpdate) && frames == []))
      ensures !cycles ==> startTick == old(startTick)
      ensures var idle := old(forceNextUpdate) || old(doesNotChange) || frames == [];
              var time := currentTicks - old(startTick) + startingFrameTime;
              if idle then
                currentFrameKey == old(currentFrameKey) && Now() == time
              else
                var key := if cycles && time > End() then 0 else old(currentFrameKey);
                && Now() == (if cycles then CutTime(time, End(), Cycle(startingFrameTime, frames)) else time)
                && (cycles ==> Now() <= End())
                && currentFrameKey == NextKey(startingFrameTime, frames, key, Now())
    {
      hide TimeOf, CutTime, NextKey, Cycle;
      lastUpdateTick := currentTicks;
      if forceNextUpdate {
        forceNextUpdate := false;
        return;
      }
      if doesNotChange {
        return;
      }
      if frames == [] {
        doesNotChange := true;
        return;
      }
      if cycles {
        CutExtraTime();
      }
      CatchUp();
    }

    /** Updates at these ticks, of an animation that runs once: at each of them one more frame may be caught up. */
    method UpdateAt(ticks: seq<int>)
      requires Valid() && started && !forceNextUpdate && !doesNotChange && !cycles && frames != []
      requires forall i :: 0 <= i < |ticks| ==> lastUpdateTick <= ticks[i]
      requires forall i, j :: 0 <= i < j < |ticks| ==> ticks[i] <= ticks[j]
      modifies `lastUpdateTick, `forceNextUpdate, `doesNotChange, `startTick, `currentFrameKey
      ensures Valid() && !forceNextUpdate && !doesNotChange && startTick == old(startTick)
      ensures currentFrameKey ==
              KeyRun(startingFrameTime, frames, old(currentFrameKey), Times(ticks, startingFrameTime - startTick))
      ensures (forall i :: 0 <= i < |ticks| ==> ticks[i] == ticks[0]) ==>
                && (ticks != [] ==> Now() == ticks[0] - startTick + startingFrameTime)
                && currentFrameKey == KeyAfter(startingFrameTime, frames, old(currentFrameKey), Now(), |ticks|)
                && (ticks != [] && |ticks| >= |frames| - old(currentFrameKey) ==>
                      Settled(startingFrameTime, frames, currentFrameKey, Now()))
    {
      hide TimeOf, NextKey, KeyRun, KeyAfter, Settled, Times;
      ghost var key, shift := currentFrameKey, startingFrameTime - startTick;
      var i := 0;
      RunStart(startingFrameTime, frames, key, ticks, shift);
      while i < |ticks|
        invariant 0 <= i <= |ticks|
        invariant Valid() && !forceNextUpdate && !doesNotChange && startTick == old(startTick)
        invariant lastUpdateTick == if i == 0 then old(lastUpdateTick) else ticks[i - 1]
        invariant currentFrameKey == KeyRun(startingFrameTime, frames, key, Times(ticks[..i], shift))
      {
        RunStep(startingFrameTime, frames, key, ticks, i, shift);
        UpdateLastDrawTime(ticks[i]);
        i := i + 1;
      }
      assert ticks[..i] == ticks;
      if forall i :: 0 <= i < |ticks| ==> ticks[i] == ticks[0] {
        SameTimes(ticks, shift, Now());
        RunAtOneTime(startingFrameTime, frames, key, Times(ticks, shift), Now());
        CatchesUp(startingFrameTime, frames, key, Now(), |ticks|);
      }
    }

    /** The last step of an update: the next frame is shown once the shown one has ended. */
    method CatchUp()
      requires Valid() && started && frames != []
      modifies `currentFrameKey
      ensures Valid() && currentFrameKey == NextKey(startingFrameTime, frames, old(currentFrameKey), Now())
    {
      ghost var key := currentFrameKey;
      assert frames[key].startTime == TimeOf(startingFrameTime, frames, key);
      if CurrentFrameEnd() < Now() && CurrentFrameEnd() < EndTime() {
        currentFrameKey := currentFrameKey + 1;
      }
    }

    /** `set_animation_time` of a started animation. */
    method SetAnimationTime(time: int)
      requires Valid() && started
      modifies `startTick, `currentFrameKey, `forceNextUpdate
      ensures Valid() && Now() == time && currentFrameKey == 0 && forceNextUpdate
    {
      startTick := lastUpdateTick + (startingFrameTime - time);
      currentFrameKey := 0;
      forceNextUpdate := true;
    }

    /** `set_begin_time`: all frames move together, and so does the time of a started animation. */
    method SetBeginTime(newBeginTime: int)
      requires Valid()
      modifies `startingFrameTime, `frames
      ensures Valid() && startingFrameTime == newBeginTime
      ensures |frames| == |old(frames)| && End() - newBeginTime == old(End() - startingFrameTime)
      ensures forall k :: 0 <= k < |frames| ==>
                && frames[k].duration == old(frames)[k].duration && frames[k].value == old(frames)[k].value
                && frames[k].startTime - newBeginTime == old(frames)[k].startTime - old(startingFrameTime)
    {
      hide TimeOf;
      ghost var was, begin := frames, startingFrameTime;
      var variation := newBeginTime - startingFrameTime;
      startingFrameTime := startingFrameTime + variation;
      var i := 0;
      while i < |frames|
        invariant 0 <= i <= |frames| == |was| && startingFrameTime == newBeginTime
        invariant forall k :: 0 <= k < i ==> frames[k] == was[k].(startTime := was[k].startTime + variation)
        invariant forall k :: i <= k < |frames| ==> frames[k] == was[k]
      {
        frames := frames[i := frames[i].(startTime := frames[i].startTime + variation)];
        i := i + 1;
      }
      TiledMoved(begin, variation, was, frames);
    }

    /** `remove_frames_until`: frames go from the front until the animation begins late enough. The index of
        the shown frame and the clock stay, so that frame is valid afterwards only if as many frames are left
        behind it and the one that moved to its place has begun by the shifted time. */
    method RemoveFramesUntil(newStartingTime: int)
      requires Contiguous()
      modifies `startingFrameTime, `frames
      ensures Contiguous() && End() == old(End())
      ensures var k := Until(old(startingFrameTime), old(frames), newStartingTime, 0);
              && frames == old(frames)[k..] && startingFrameTime == TimeOf(old(startingFrameTime), old(frames), k)
              && (old(Valid()) ==>
                    (Valid() <==>
                       || currentFrameKey == 0
                       || (&& currentFrameKey + k < |old(frames)|
                           && (started ==> old(frames)[currentFrameKey + k].startTime - startingFrameTime
                                           <= old(Now()) - old(startingFrameTime)))))
    {
      hide Tiled, Until, TimeOf;
      ghost var was, begin, k := frames, startingFrameTime, 0;
      TimeOfStart(begin, was);
      while startingFrameTime < newStartingTime && frames != []
        invariant 0 <= k <= |was| && frames == was[k..] && startingFrameTime == TimeOf(begin, was, k)
        invariant Until(begin, was, newStartingTime, k) == Until(begin, was, newStartingTime, 0)
        decreases |frames|
      {
        UntilStep(begin, was, newStartingTime, k);
        startingFrameTime := startingFrameTime + frames[0].duration;
        frames := frames[1..];
        k := k + 1;
      }
      UntilHere(begin, was, newStartingTime, k);
      TiledSuffix(begin, was, k);
    }

    /** `set_end_time`: frames that would begin at or after the new end go, and the last one left is made to
        end there. The index of the shown frame stays, so it may be out of range afterwards. */
    method SetEndTime(newEndingTime: int)
      requires Contiguous() && frames != [] && startingFrameTime < newEndingTime
      modifies `frames
      ensures Contiguous() && End() == newEndingTime
      ensures old(Valid()) ==> (Valid() <==> currentFrameKey < |frames|)
      ensures var k := Until(startingFrameTime, old(frames), newEndingTime, 0);
              && 0 < |frames| == k && frames[..k - 1] == old(frames)[..k - 1]
              && frames[k - 1] == old(frames)[k - 1].(duration := newEndingTime - old(frames)[k - 1].startTime)
              && frames[k - 1].duration > 0
    {
      hide Tiled, Until, TimeOf;
      ghost var was := frames;
      var lastStartTime := startingFrameTime;
      var current := 0;
      TimeOfStart(startingFrameTime, frames);
      while lastStartTime < newEndingTime && current != |frames|
        invariant 0 <= current <= |frames| && lastStartTime == TimeOf(startingFrameTime, frames, current)
        invariant Until(startingFrameTime, frames, newEndingTime, current) == Until(startingFrameTime, frames, newEndingTime, 0)
        invariant if current == 0 then lastStartTime < newEndingTime
                  else TimeOf(startingFrameTime, frames, current - 1) < newEndingTime
        modifies {}
        decreases |frames| - current
      {
        UntilStep(startingFrameTime, frames, newEndingTime, current);
        lastStartTime := lastStartTime + frames[current].duration;
        current := current + 1;
      }
      UntilHere(startingFrameTime, frames, newEndingTime, current);
      CutAt(startingFrameTime, was, current, newEndingTime);
      frames := frames[..current];
      var last := frames[current - 1];
      frames := frames[current - 1 := last.(duration := last.duration + newEndingTime - lastStartTime)];
    }
  }

  lemma TiledSuffix<T>(begin: int, frames: seq<Frame<T>>, k: nat)
    requires Tiled(begin, frames) && k <= |frames|
    ensures var start := TimeOf(begin, frames, k);
            Tiled(start, frames[k..]) && TimeOf(start, frames[k..], |frames| - k) == TimeOf(begin, frames, |frames|)
  {
    var start := TimeOf(begin, frames, k);
    forall j | k <= j <= |frames|
      ensures TimeOf(start, frames[k..], j - k) == TimeOf(begin, frames, j)
    {
      TimeOfSuffix(begin, frames, k, j);
    }
    forall i | 0 <= i < |frames| - k
      ensures frames[k..][i].startTime == TimeOf(start, frames[k..], i)
    {
      assert TimeOf(start, frames[k..], (i + k) - k) == TimeOf(begin, frames, i + k);
    }
  }

  lemma TimeOfStart<T>(begin: int, frames: seq<Frame<T>>)
    ensures TimeOf(begin, frames, 0) == begin
  {
  }

  lemma UntilStep<T>(begin: int, frames: seq<Frame<T>>, time: int, k: nat)
    requires k < |frames| && TimeOf(begin, frames, k) < time
    ensures Until(begin, frames, time, k + 1) == Until(begin, frames, time, k)
    ensures TimeOf(begin, frames, k + 1) == TimeOf(begin, frames, k) + frames[k].duration
  {
  }

  lemma UntilHere<T>(begin: int, frames: seq<Frame<T>>, time: int, k: nat)
    requires k <= |frames| && (k == |frames| || TimeOf(begin, frames, k) >= time)
    ensures Until(begin, frames, time, k) == k
  {
  }

  lemma CutAt<T>(begin: int, frames: seq<Frame<T>>, k: nat, time: int)
    requires Tiled(begin, frames) && 0 < k <= |frames|
    ensures var last := frames[k - 1];
            var now := frames[..k][k - 1 := last.(duration := last.duration + time - TimeOf(begin, frames, k))];
            Tiled(begin, now) && TimeOf(begin, now, |now|) == time
            && last.duration + time - TimeOf(begin, frames, k) == time - last.startTime
            && last.startTime == TimeOf(begin, frames, k - 1)
  {
    var last := frames[k - 1];
    var now := frames[..k][k - 1 := last.(duration := last.duration + time - TimeOf(begin, frames, k))];
    forall i | 0 <= i < k
      ensures TimeOf(begin, now, i) == TimeOf(begin, frames, i)
    {
      TimeOfPrefix(begin, now, frames, i);
    }
  }

  /** The first frame from `k` on that does not begin before a time; the number of all if there is none. */
  function Until<T>(begin: int, frames: seq<Frame<T>>, time: int, k: nat): (n: nat)
    requires k <= |frames|
    ensures k <= n <= |frames|
    ensures forall j :: k <= j < n ==> TimeOf(begin, frames, j) < time
    ensures n < |frames| ==> TimeOf(begin, frames, n) >= time
    decreases |frames| - k
  {
    if k == |frames| || TimeOf(begin, frames, k) >= time then k else Until(begin, frames, time, k + 1)
  }

  /** The length of a cycle, at least one tick. */
  function Cycle<T>(begin: int, frames: seq<Frame<T>>): (c: int)
    ensures c >= 1 && c >= TimeOf(begin, frames, |frames|) - begin
    ensures c == 1 || begin + c == TimeOf(begin, frames, |frames|)
  {
    var duration := TimeOf(begin, frames, |frames|) - begin;
    if duration > 1 then duration else 1
  }

  /** A time with whole cycles cut off until it is not past the end. */
  function CutTime(time: int, end: int, cycle: int): (t: int)
    requires cycle >= 1
    ensures t <= end && t <= time && (time > end ==> t > end - cycle)
    decreases time - end
  {
    if time <= end then time else CutTime(time - cycle, end, cycle)
  }

  /** Cutting takes off whole cycles, so an animation of at least one tick stays in phase. */
  lemma {:induction false} CutWholeCycles(time: int, end: int, cycle: int) returns (n: nat)
    requires cycle >= 1
    ensures CutTime(time, end, cycle) == time - n * cycle
    decreases time - end
  {
    n := 0;
    if time > end {
      n := CutWholeCycles(time - cycle, end, cycle);
      assert (n + 1) * cycle == n * cycle + cycle;
      n := n + 1;
    }
  }

  /** The frame shown after one update: the next one if the shown one has ended and is not the last. */
  function NextKey<T>(begin: int, frames: seq<Frame<T>>, key: nat, now: int): (k: nat)
    requires key < |frames|
    ensures k < |frames|
  {
    if TimeOf(begin, frames, key + 1) < now && TimeOf(begin, frames, key + 1) < TimeOf(begin, frames, |frames|)
    then key + 1 else key
  }

  // ---------------------------------------------------------------- catching up

  /** The frame shown after `n` updates at the same time. */
  function KeyAfter<T>(begin: int, frames: seq<Frame<T>>, key: nat, now: int, n: nat): (k: nat)
    requires key < |frames|
    ensures k < |frames|
  {
    if n == 0 then key else NextKey(begin, frames, KeyAfter(begin, frames, key, now, n - 1), now)
  }

  /** A frame that an update does not leave: it has not ended, or it reaches the end of the animation. */
  ghost predicate Settled<T>(begin: int, frames: seq<Frame<T>>, key: nat, now: int)
    requires key < |frames|
  {
    TimeOf(begin, frames, key + 1) >= now || TimeOf(begin, frames, key + 1) >= TimeOf(begin, frames, |frames|)
  }

  /** One update moves one frame on, so an animation that has fallen behind catches up within as many
      updates as there are frames. */
  lemma {:induction false} CatchesUp<T>(begin: int, frames: seq<Frame<T>>, key: nat, now: int, n: nat)
    requires key < |frames|
    ensures var k := KeyAfter(begin, frames, key, now, n); Settled(begin, frames, k, now) || k == key + n
    ensures n >= |frames| - key ==> Settled(begin, frames, KeyAfter(begin, frames, key, now, n), now)
  {
    hide TimeOf;
    if n > 0 {
      CatchesUp(begin, frames, key, now, n - 1);
    }
  }

  /** The animation times of these ticks. */
  function Times(ticks: seq<int>, shift: int): (r: seq<int>)
    ensures |r| == |ticks| && forall i :: 0 <= i < |r| ==> r[i] == ticks[i] + shift
  {
    seq(|ticks|, i requires 0 <= i < |ticks| => ticks[i] + shift)
  }

  /** The frame shown after updates at these times. */
  function KeyRun<T>(begin: int, frames: seq<Frame<T>>, key: nat, times: seq<int>): (k: nat)
    requires key < |frames|
    ensures k < |frames|
  {
    if times == [] then key
    else
      var n := |times| - 1;
      NextKey(begin, frames, KeyRun(begin, frames, key, times[..n]), times[n])
  }

  lemma RunStart<T>(begin: int, frames: seq<Frame<T>>, key: nat, ticks: seq<int>, shift: int)
    requires key < |frames|
    ensures KeyRun(begin, frames, key, Times(ticks[..0], shift)) == key
  {
  }

  lemma RunStep<T>(begin: int, frames: seq<Frame<T>>, key: nat, ticks: seq<int>, i: nat, shift: int)
    requires key < |frames| && i < |ticks|
    ensures KeyRun(begin, frames, key, Times(ticks[..i + 1], shift)) ==
            NextKey(begin, frames, KeyRun(begin, frames, key, Times(ticks[..i], shift)), ticks[i] + shift)
  {
    assert Times(ticks[..i + 1], shift)[..i] == Times(ticks[..i], shift);
  }

  lemma SameTimes(ticks: seq<int>, shift: int, now: int)
    requires forall i :: 0 <= i < |ticks| ==> ticks[i] + shift == now
    ensures forall i :: 0 <= i < |Times(ticks, shift)| ==> Times(ticks, shift)[i] == now
  {
  }

  /** Updates at one time are counted only. */
  lemma {:induction false} RunAtOneTime<T>(begin: int, frames: seq<Frame<T>>, key: nat, times: seq<int>, now: int)
    requires key < |frames| && forall i :: 0 <= i < |times| ==> times[i] == now
    ensures KeyRun(begin, frames, key, times) == KeyAfter(begin, frames, key, now, |times|)
  {
    hide NextKey;
    if times != [] {
      RunAtOneTime(begin, frames, key, times[..|times| - 1], now);
    }
  }

  /** Updates at any times from some time on, one for each frame that may be left: what is shown then is no
      frame that had ended by that time. */
  lemma {:induction false} RunCatchesUp<T>(begin: int, frames: seq<Frame<T>>, key: nat, times: seq<int>, now: int)
    requires key < |frames| && forall i :: 0 <= i < |frames| ==> frames[i].duration > 0
    requires forall i :: 0 <= i < |times| ==> now <= times[i]
    ensures var k := KeyRun(begin, frames, key, times); Settled(begin, frames, k, now) || k == key + |times|
    ensures |times| >= |frames| - key ==> Settled(begin, frames, KeyRun(begin, frames, key, times), now)
  {
    hide TimeOf;
    if times != [] {
      var n := |times| - 1;
      RunCatchesUp(begin, frames, key, times[..n], now);
      var k := KeyRun(begin, frames, key, times[..n]);
      if k + 1 < |frames| {
        TimeGrows(begin, frames, k + 1, k + 2);
      }
    }
  }

  /** Of an animation whose frames all last, a settled frame that has begun is the one to be shown: no other
      frame is running before the end. */
  lemma SettledIsShown<T>(begin: int, frames: seq<Frame<T>>, key: nat, now: int, k: nat)
    requires key < |frames| && Settled(begin, frames, key, now) && TimeOf(begin, frames, key) < now
    requires forall i :: 0 <= i < |frames| ==> frames[i].duration > 0
    requires k < |frames| && TimeOf(begin, frames, k) < now <= TimeOf(begin, frames, k + 1)
    ensures k == key
  {
    if k < key {
      TimeGrows(begin, frames, k + 1, key);
    } else if key < k {
      TimeGrows(begin, frames, key + 1, k);
      TimeGrows(begin, frames, k, |frames|);
    }
  }

  lemma {:induction false} TimeGrows<T>(begin: int, frames: seq<Frame<T>>, j: nat, k: nat)
    requires j <= k <= |frames| && forall i :: 0 <= i < |frames| ==> frames[i].duration > 0
    ensures TimeOf(begin, frames, j) + (k - j) <= TimeOf(begin, frames, k)
  {
    if j < k {
      TimeGrows(begin, frames, j, k - 1);
    }
  }
}
