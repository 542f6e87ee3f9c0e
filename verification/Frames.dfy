/**
 The stack walk: the runtime's walker stops at native and runtime frames; internal frames met
 after native ones are held back and reported, sorted by address, before the next managed frame.
 */
module Frames {
  import opened Options

  /** A frame of the walker, with the answers to the interfaces it is asked for. */
  datatype Frame = Frame(
    id: int, addr: nat, isUnwindable: bool, isInternal: bool, hasFunction: bool, isNative: bool)

  /** Where the walker stops: a native stretch without a frame, or a frame. */
  datatype Stop = NativeStretch | At(frame: Frame)

  datatype FrameType = FrameUnknown | FrameClrNative | FrameClrInternal | FrameClrManaged

  datatype Report = Report(frameType: FrameType, frame: Frame)

  function TypeOf(f: Frame): FrameType {
    if f.hasFunction then FrameClrManaged
    else if !f.isNative then FrameUnknown
    else if f.isInternal then FrameClrInternal
    else FrameClrNative
  }

  // ---------------------------------------------------------------- the walk

  /** Sorting, of which only this is known: the result is increasing and has the same frames. */
  ghost predicate Sorts(sort: seq<Frame> -> seq<Frame>) {
    forall fs: seq<Frame> :: multiset(sort(fs)) == multiset(fs) && Ascending(sort(fs))
  }

  predicate Ascending(fs: seq<Frame>) {
    forall i, j | 0 <= i < j < |fs| :: fs[i].addr <= fs[j].addr
  }

  function AsInternal(fs: seq<Frame>): (r: seq<Report>)
    ensures |r| == |fs| && forall i | 0 <= i < |fs| :: r[i] == Report(FrameClrInternal, fs[i])
  {
    seq(|fs|, i requires 0 <= i < |fs| => Report(FrameClrInternal, fs[i]))
  }

  /** What the walk reports from a state on: `cache` holds internal frames back, and `native`
      says that a native stretch was met since the last report. */
  function Walked(sort: seq<Frame> -> seq<Frame>, cache: seq<Frame>, native: bool, stops: seq<Stop>): seq<Report>
    decreases |stops|
  {
    if stops == [] then AsInternal(sort(cache))
    else match stops[0]
      case NativeStretch => Walked(sort, cache, true, stops[1..])
      case At(f) =>
        if f.isUnwindable then Walked(sort, cache, native, stops[1..])
        else if f.isInternal && native then Walked(sort, cache + [f], native, stops[1..])
        else AsInternal(sort(cache)) + ([Report(TypeOf(f), f)] + Walked(sort, [], false, stops[1..]))
  }

  function Reports(sort: seq<Frame> -> seq<Frame>, stops: seq<Stop>): seq<Report> {
    Walked(sort, [], false, stops)
  }

  /** A callback turns its state and a report into its next state, and may stop the walk. */
  type Callback<!S> = (S, Report) -> (S, bool)

  /** The callback applied to reports in order, until it stops the walk. */
  function Feed<S>(cb: Callback<S>, s: S, reports: seq<Report>): (S, bool)
    decreases |reports|
  {
    if reports == [] then (s, true)
    else
      var (t, ok) := cb(s, reports[0]);
      if ok then Feed(cb, t, reports[1..]) else (t, false)
  }

  lemma {:induction false} FeedConcat<S>(cb: Callback<S>, s: S, a: seq<Report>, b: seq<Report>)
    ensures var (t, ok) := Feed(cb, s, a); Feed(cb, s, a + b) == if ok then Feed(cb, t, b) else (t, false)
    decreases |a|
  {
    if a == [] {
      assert a + b == b;
    } else {
      assert (a + b)[1..] == a[1..] + b;
      FeedConcat(cb, cb(s, a[0]).0, a[1..], b);
    }
  }

  method StitchInternalFrames<S>(sort: seq<Frame> -> seq<Frame>, cache: seq<Frame>, cb: Callback<S>, s: S)
    returns (t: S, ok: bool)
    ensures (t, ok) == Feed(cb, s, AsInternal(sort(cache)))
  {
    var frames := sort(cache);
    ghost var all := AsInternal(frames);
    t := s;
    for i := 0 to |frames|
      invariant Feed(cb, s, all) == Feed(cb, t, all[i..])
    {
      assert all[i..][1..] == all[i + 1..];
      var answer := cb(t, Report(FrameClrInternal, frames[i]));
      t, ok := answer.0, answer.1;
      if !ok {
        return;
      }
    }
    assert all[|frames|..] == [];
    ok := true;
  }

  method WalkFrames<S>(sort: seq<Frame> -> seq<Frame>, stops: seq<Stop>, cb: Callback<S>, s: S)
    returns (t: S, ok: bool)
    ensures (t, ok) == Feed(cb, s, Reports(sort, stops))
  {
    var cache, native := [], false;
    t := s;
    assert stops[0..] == stops;
    for i := 0 to |stops|
      invariant cache != [] ==> native
      invariant Feed(cb, t, Walked(sort, cache, native, stops[i..])) == Feed(cb, s, Reports(sort, stops))
    {
      ghost var rest := stops[i + 1..];
      assert stops[i..][1..] == rest;
      if stops[i].NativeStretch? {
        native := true;
        continue;
      }
      var frame := stops[i].frame;
      if frame.isUnwindable {
        continue;
      }
      if frame.isInternal && native {
        cache := cache + [frame];
        continue;
      }
      ghost var after := [Report(TypeOf(frame), frame)] + Walked(sort, [], false, rest);
      FeedConcat(cb, t, AsInternal(sort(cache)), after);
      t, ok := StitchInternalFrames(sort, cache, cb, t);
      if !ok {
        return;
      }
      native, cache := false, [];
      assert after[1..] == Walked(sort, [], false, rest);
      var answer := cb(t, Report(TypeOf(frame), frame));
      t, ok := answer.0, answer.1;
      if !ok {
        return;
      }
    }
    t, ok := StitchInternalFrames(sort, cache, cb, t);
  }

  // ---------------------------------------------------------------- what is held back

  /** The frames held back behind the stops, and whether a native stretch is pending. */
  function Held(stops: seq<Stop>): (seq<Frame>, bool) {
    if stops == [] then ([], false)
    else
      var (cache, native) := Held(stops[..|stops| - 1]);
      match stops[|stops| - 1]
      case NativeStretch => (cache, true)
      case At(f) =>
        if f.isUnwindable then (cache, native)
        else if f.isInternal && native then (cache + [f], native)
        else ([], false)
  }

  /** What is reported by then. */
  function Reported(sort: seq<Frame> -> seq<Frame>, stops: seq<Stop>): seq<Report> {
    if stops == [] then []
    else
      var init, last := stops[..|stops| - 1], stops[|stops| - 1];
      var (cache, native) := Held(init);
      if last.NativeStretch? || last.frame.isUnwindable || (last.frame.isInternal && native) then Reported(sort, init)
      else Reported(sort, init) + (AsInternal(sort(cache)) + [Report(TypeOf(last.frame), last.frame)])
  }

  lemma HeldStep(sort: seq<Frame> -> seq<Frame>, before: seq<Stop>, after: seq<Stop>)
    requires before != []
    ensures var init, last := before[..|before| - 1], before[|before| - 1];
      Reported(sort, init) + Walked(sort, Held(init).0, Held(init).1, [last] + after)
      == Reported(sort, before) + Walked(sort, Held(before).0, Held(before).1, after)
  {
    var init, last := before[..|before| - 1], before[|before| - 1];
    var stops := [last] + after;
    assert stops[0] == last && stops[1..] == after;
    match last
    case NativeStretch =>
    case At(f) =>
      if !f.isUnwindable && !(f.isInternal && Held(init).1) {
        var flushed, rest := AsInternal(sort(Held(init).0)) + [Report(TypeOf(f), f)], Walked(sort, [], false, after);
        assert AsInternal(sort(Held(init).0)) + ([Report(TypeOf(f), f)] + rest) == flushed + rest;
        assert Reported(sort, init) + (flushed + rest) == (Reported(sort, init) + flushed) + rest;
      }
  }

  /** Wherever the walk is cut, it goes on from what is held back there; frames are held back
      only while a native stretch is pending, and all of them are internal. */
  lemma {:induction false} HeldUnderNative(sort: seq<Frame> -> seq<Frame>, before: seq<Stop>, after: seq<Stop>)
    ensures var (cache, native) := Held(before);
      && Reports(sort, before + after) == Reported(sort, before) + Walked(sort, cache, native, after)
      && (cache != [] ==> native)
      && forall i | 0 <= i < |cache| :: cache[i].isInternal
    decreases |before|
  {
    if before == [] {
      assert before + after == after;
    } else {
      var init, last := before[..|before| - 1], before[|before| - 1];
      HeldUnderNative(sort, init, [last] + after);
      assert before + after == init + ([last] + after);
      HeldStep(sort, before, after);
    }
  }

  // ---------------------------------------------------------------- every frame once

  /** The frames that the walk should report, in the walker's order. */
  function Eligible(stops: seq<Stop>): seq<Frame> {
    if stops == [] then []
    else (if stops[0].At? && !stops[0].frame.isUnwindable then [stops[0].frame] else []) + Eligible(stops[1..])
  }

  function FramesOf(rs: seq<Report>): (fs: seq<Frame>)
    ensures |fs| == |rs| && forall i | 0 <= i < |rs| :: fs[i] == rs[i].frame
  {
    seq(|rs|, i requires 0 <= i < |rs| => rs[i].frame)
  }

  lemma FramesOfFlush(fs: seq<Frame>, r: Report, rs: seq<Report>)
    ensures FramesOf(AsInternal(fs) + ([r] + rs)) == fs + ([r.frame] + FramesOf(rs))
  {
  }

  lemma FlushedOnce(sort: seq<Frame> -> seq<Frame>, cache: seq<Frame>, native: bool, stops: seq<Stop>)
    requires Sorts(sort) && stops != [] && stops[0].At? && !stops[0].frame.isUnwindable
    requires !(stops[0].frame.isInternal && native)
    ensures multiset(FramesOf(Walked(sort, cache, native, stops)))
         == multiset(cache) + multiset{stops[0].frame} + multiset(FramesOf(Walked(sort, [], false, stops[1..])))
  {
    var f, rest := stops[0].frame, Walked(sort, [], false, stops[1..]);
    FramesOfFlush(sort(cache), Report(TypeOf(f), f), rest);
    assert multiset(sort(cache)) == multiset(cache);
  }

  lemma {:induction false} WalkedOnce(sort: seq<Frame> -> seq<Frame>, cache: seq<Frame>, native: bool, stops: seq<Stop>)
    requires Sorts(sort)
    ensures multiset(FramesOf(Walked(sort, cache, native, stops))) == multiset(cache) + multiset(Eligible(stops))
    decreases |stops|
  {
    if stops == [] {
      assert FramesOf(AsInternal(sort(cache))) == sort(cache);
    } else if stops[0].NativeStretch? {
      WalkedOnce(sort, cache, true, stops[1..]);
      assert Eligible(stops) == Eligible(stops[1..]);
    } else {
      var f := stops[0].frame;
      if f.isUnwindable {
        WalkedOnce(sort, cache, native, stops[1..]);
        assert Eligible(stops) == Eligible(stops[1..]);
      } else if f.isInternal && native {
        WalkedOnce(sort, cache + [f], native, stops[1..]);
      } else {
        WalkedOnce(sort, [], false, stops[1..]);
        FlushedOnce(sort, cache, native, stops);
      }
    }
  }

  /** Every frame that is neither native nor to be unwound by the runtime is reported exactly
      once, whatever the order of its address among the others. */
  lemma EachFrameOnce(sort: seq<Frame> -> seq<Frame>, stops: seq<Stop>)
    requires Sorts(sort)
    ensures multiset(FramesOf(Reports(sort, stops))) == multiset(Eligible(stops))
  {
    WalkedOnce(sort, [], false, stops);
  }

  /** What a frame is reported as, by its answers. */
  lemma TypeExact(f: Frame)
    ensures TypeOf(f) == FrameClrManaged <==> f.hasFunction
    ensures TypeOf(f) == FrameUnknown <==> !f.hasFunction && !f.isNative
    ensures TypeOf(f) == FrameClrInternal <==> !f.hasFunction && f.isNative && f.isInternal
    ensures TypeOf(f) == FrameClrNative <==> !f.hasFunction && f.isNative && !f.isInternal
  {
  }

  /** What a frame may be reported as: an internal frame that was held back is reported as
      internal even when it has a function. */
  predicate RightType(r: Report) {
    match r.frameType
    case FrameClrManaged => r.frame.hasFunction
    case FrameUnknown => !r.frame.hasFunction && !r.frame.isNative
    case FrameClrNative => !r.frame.hasFunction && r.frame.isNative && !r.frame.isInternal
    case FrameClrInternal => r.frame.isInternal
  }

  lemma {:induction false} WalkedTypes(sort: seq<Frame> -> seq<Frame>, cache: seq<Frame>, native: bool,
                                       stops: seq<Stop>)
    requires Sorts(sort) && forall i | 0 <= i < |cache| :: cache[i].isInternal
    ensures forall i | 0 <= i < |Walked(sort, cache, native, stops)| :: RightType(Walked(sort, cache, native, stops)[i])
    decreases |stops|
  {
    forall i | 0 <= i < |sort(cache)| ensures sort(cache)[i].isInternal {
      assert sort(cache)[i] in multiset(sort(cache));
      assert sort(cache)[i] in cache;
    }
    if stops != [] {
      if stops[0].NativeStretch? || stops[0].frame.isUnwindable {
        WalkedTypes(sort, cache, native || stops[0].NativeStretch?, stops[1..]);
      } else if stops[0].frame.isInternal && native {
        WalkedTypes(sort, cache + [stops[0].frame], native, stops[1..]);
      } else {
        WalkedTypes(sort, [], false, stops[1..]);
      }
    }
  }

  /** Every report has the type of its frame, and only a frame with a function is managed. */
  lemma ReportedTypes(sort: seq<Frame> -> seq<Frame>, stops: seq<Stop>)
    requires Sorts(sort)
    ensures forall i | 0 <= i < |Reports(sort, stops)| :: RightType(Reports(sort, stops)[i])
    ensures forall i | 0 <= i < |Reports(sort, stops)| ::
              Reports(sort, stops)[i].frameType == FrameClrManaged ==> Reports(sort, stops)[i].frame.hasFunction
  {
    WalkedTypes(sort, [], false, stops);
    forall i | 0 <= i < |Reports(sort, stops)|
      ensures Reports(sort, stops)[i].frameType == FrameClrManaged ==> Reports(sort, stops)[i].frame.hasFunction
    {
      assert RightType(Reports(sort, stops)[i]);
    }
  }

  // ---------------------------------------------------------------- the order

  predicate Increasing(fs: seq<Frame>) {
    forall i, j | 0 <= i < j < |fs| :: fs[i].addr < fs[j].addr
  }

  predicate DistinctAddresses(fs: seq<Frame>) {
    forall i, j | 0 <= i < j < |fs| :: fs[i].addr != fs[j].addr
  }

  /** Every group of frames held back together has increasing addresses. */
  predicate GroupsIncrease(cache: seq<Frame>, native: bool, stops: seq<Stop>)
    decreases |stops|
  {
    if stops == [] then Increasing(cache)
    else match stops[0]
      case NativeStretch => GroupsIncrease(cache, true, stops[1..])
      case At(f) =>
        if f.isUnwindable then GroupsIncrease(cache, native, stops[1..])
        else if f.isInternal && native then GroupsIncrease(cache + [f], native, stops[1..])
        else Increasing(cache) && GroupsIncrease([], false, stops[1..])
  }

  lemma SameFirst(a: seq<Frame>, b: seq<Frame>)
    requires multiset(a) == multiset(b) && Ascending(a) && Increasing(b) && a != [] && b != []
    ensures a[0] == b[0]
  {
    assert a[0] in multiset(b) && b[0] in multiset(a);
    var j :| 0 <= j < |b| && b[j] == a[0];
    var i :| 0 <= i < |a| && a[i] == b[0];
    assert b[0].addr <= b[j].addr && a[0].addr <= a[i].addr;
    assert j == 0;
  }

  lemma TailMultiset(s: seq<Frame>)
    requires s != []
    ensures multiset(s[1..]) == multiset(s) - multiset{s[0]}
  {
    assert s == [s[0]] + s[1..];
  }

  /** Sequences with the same frames in increasing order are the same. */
  lemma {:induction false} OneOrder(a: seq<Frame>, b: seq<Frame>)
    requires multiset(a) == multiset(b) && Ascending(a) && Increasing(b)
    ensures a == b
    decreases |a|
  {
    assert |a| == |multiset(a)| == |multiset(b)| == |b|;
    if a != [] {
      SameFirst(a, b);
      TailMultiset(a);
      TailMultiset(b);
      OneOrder(a[1..], b[1..]);
    }
  }

  lemma SortKeepsExactly(sort: seq<Frame> -> seq<Frame>, fs: seq<Frame>)
    requires Sorts(sort) && DistinctAddresses(fs)
    ensures sort(fs) == fs <==> Increasing(fs)
  {
    if Increasing(fs) {
      OneOrder(sort(fs), fs);
    }
  }

  lemma DistinctParts(a: seq<Frame>, b: seq<Frame>)
    requires DistinctAddresses(a + b)
    ensures DistinctAddresses(a) && DistinctAddresses(b)
  {
    forall i, j | 0 <= i < j < |b| ensures b[i].addr != b[j].addr {
      assert (a + b)[|a| + i] == b[i] && (a + b)[|a| + j] == b[j];
    }
    forall i, j | 0 <= i < j < |a| ensures a[i].addr != a[j].addr {
      assert (a + b)[i] == a[i] && (a + b)[j] == a[j];
    }
  }

  lemma SameParts(a: seq<Frame>, b: seq<Frame>, f: Frame, c: seq<Frame>, d: seq<Frame>)
    requires |a| == |b|
    ensures a + ([f] + c) == b + ([f] + d) <==> a == b && c == d
  {
    if a + ([f] + c) == b + ([f] + d) {
      assert a == (a + ([f] + c))[..|a|] && b == (b + ([f] + d))[..|b|];
      assert c == (a + ([f] + c))[|a| + 1..] && d == (b + ([f] + d))[|b| + 1..];
    }
  }

  lemma {:induction false} OrderExact(sort: seq<Frame> -> seq<Frame>, cache: seq<Frame>, native: bool, stops: seq<Stop>)
    requires Sorts(sort) && DistinctAddresses(cache + Eligible(stops))
    ensures FramesOf(Walked(sort, cache, native, stops)) == cache + Eligible(stops)
       <==> GroupsIncrease(cache, native, stops)
    decreases |stops|
  {
    if stops == [] {
      assert FramesOf(AsInternal(sort(cache))) == sort(cache) && cache + Eligible(stops) == cache;
      SortKeepsExactly(sort, cache);
    } else if stops[0].NativeStretch? {
      assert Eligible(stops) == Eligible(stops[1..]);
      OrderExact(sort, cache, true, stops[1..]);
    } else {
      var f := stops[0].frame;
      if f.isUnwindable {
        assert Eligible(stops) == Eligible(stops[1..]);
        OrderExact(sort, cache, native, stops[1..]);
      } else if f.isInternal && native {
        assert cache + Eligible(stops) == (cache + [f]) + Eligible(stops[1..]);
        OrderExact(sort, cache + [f], native, stops[1..]);
      } else {
        FlushOrder(sort, cache, f, stops);
      }
    }
  }

  /** The step of the order lemma that reports what was held back. */
  lemma {:induction false} FlushOrder(sort: seq<Frame> -> seq<Frame>, cache: seq<Frame>, f: Frame, stops: seq<Stop>)
    requires Sorts(sort) && DistinctAddresses(cache + Eligible(stops))
    requires stops != [] && stops[0] == At(f) && !f.isUnwindable
    ensures FramesOf(AsInternal(sort(cache)) + ([Report(TypeOf(f), f)] + Walked(sort, [], false, stops[1..])))
            == cache + Eligible(stops)
       <==> Increasing(cache) && GroupsIncrease([], false, stops[1..])
    decreases |stops|, 0
  {
    var rest := Walked(sort, [], false, stops[1..]);
    DistinctParts(cache, Eligible(stops));
    DistinctParts([f], Eligible(stops[1..]));
    assert [] + Eligible(stops[1..]) == Eligible(stops[1..]);
    OrderExact(sort, [], false, stops[1..]);
    SortKeepsExactly(sort, cache);
    FramesOfFlush(sort(cache), Report(TypeOf(f), f), rest);
    assert |multiset(sort(cache))| == |multiset(cache)|;
    SameParts(sort(cache), cache, f, FramesOf(rest), Eligible(stops[1..]));
  }

  /** Frames at distinct addresses come in the walker's order exactly when the addresses of
      every group held back increase along the walk. */
  lemma WalkerOrderExact(sort: seq<Frame> -> seq<Frame>, stops: seq<Stop>)
    requires Sorts(sort) && DistinctAddresses(Eligible(stops))
    ensures FramesOf(Reports(sort, stops)) == Eligible(stops) <==> GroupsIncrease([], false, stops)
  {
    assert [] + Eligible(stops) == Eligible(stops);
    OrderExact(sort, [], false, stops);
  }

  lemma {:induction false} IncreasingGroups(cache: seq<Frame>, native: bool, stops: seq<Stop>)
    requires Increasing(cache + Eligible(stops))
    ensures GroupsIncrease(cache, native, stops)
    decreases |stops|
  {
    var later := Eligible(stops);
    if stops == [] {
      assert cache + later == cache;
    } else {
      var rest := Eligible(stops[1..]);
      if stops[0].NativeStretch? || stops[0].frame.isUnwindable {
        assert later == rest;
        IncreasingGroups(cache, native || stops[0].NativeStretch?, stops[1..]);
      } else {
        var f := stops[0].frame;
        assert later == [f] + rest;
        if f.isInternal && native {
          assert (cache + [f]) + rest == cache + later;
          IncreasingGroups(cache + [f], native, stops[1..]);
        } else {
          IncreasingParts(cache, [f], rest);
          assert [] + rest == rest;
          IncreasingGroups([], false, stops[1..]);
        }
      }
    }
  }

  lemma IncreasingParts(a: seq<Frame>, b: seq<Frame>, c: seq<Frame>)
    requires Increasing(a + (b + c))
    ensures Increasing(a) && Increasing(c)
  {
    var all := a + (b + c);
    forall i, j | 0 <= i < j < |a| ensures a[i].addr < a[j].addr {
      assert all[i] == a[i] && all[j] == a[j];
    }
    forall i, j | 0 <= i < j < |c| ensures c[i].addr < c[j].addr {
      assert all[|a| + |b| + i] == c[i] && all[|a| + |b| + j] == c[j];
    }
  }

  /** In particular when the addresses increase along the whole walk. */
  lemma WalkerOrder(sort: seq<Frame> -> seq<Frame>, stops: seq<Stop>)
    requires Sorts(sort) && Increasing(Eligible(stops))
    ensures FramesOf(Reports(sort, stops)) == Eligible(stops)
  {
    assert [] + Eligible(stops) == Eligible(stops);
    IncreasingGroups([], false, stops);
    WalkerOrderExact(sort, stops);
  }

  // ---------------------------------------------------------------- GetStackTrace

  datatype StackFrame = StackFrame(level: int, report: Report)

  datatype TraceState = TraceState(current: int, frames: seq<StackFrame>)

  function TraceCallback(start: int, levels: int): Callback<TraceState> {
    (s: TraceState, r: Report) =>
      var current := s.current + 1;
      if current < start || (levels != 0 && current >= start + levels) then (TraceState(current, s.frames), true)
      else (TraceState(current, s.frames + [StackFrame(current, r)]), true)
  }

  method GetStackTrace(sort: seq<Frame> -> seq<Frame>, stops: seq<Stop>, start: int, levels: int)
    returns (frames: seq<StackFrame>, total: int)
    ensures total == |Reports(sort, stops)|
    ensures frames == Window(Numbered(Reports(sort, stops)), start, levels)
  {
    var s, ok := WalkFrames(sort, stops, TraceCallback(start, levels), TraceState(-1, []));
    TraceFeed(Reports(sort, stops), 0, start, levels);
    assert Reports(sort, stops)[0..] == Reports(sort, stops);
    assert [] + Window(Numbered(Reports(sort, stops)), start, levels)
      == Window(Numbered(Reports(sort, stops)), start, levels);
    frames, total := s.frames, s.current + 1;
  }

  function Numbered(rs: seq<Report>): (r: seq<StackFrame>)
    ensures |r| == |rs| && forall i | 0 <= i < |r| :: r[i] == StackFrame(i, rs[i])
  {
    seq(|rs|, i requires 0 <= i < |rs| => StackFrame(i, rs[i]))
  }

  /** The position in a list nearest to an index. */
  function Clamp(i: int, n: nat): (r: nat)
    ensures r <= n
  {
    if i < 0 then 0 else if i > n then n else i
  }

  /** `levels` frames from `start` on; all of them when `levels` is 0. */
  function Window(all: seq<StackFrame>, start: int, levels: int): seq<StackFrame> {
    var lo := Clamp(start, |all|);
    var hi := if levels == 0 then |all| else Clamp(start + levels, |all|);
    if lo <= hi then all[lo..hi] else []
  }

  /** The window has exactly the frames from `start` on, before `start + levels` unless `levels` is 0,
      each at the level of its place in the trace, in order. */
  lemma WindowExact(rs: seq<Report>, start: int, levels: int)
    ensures var w := Window(Numbered(rs), start, levels);
      && (forall i | 0 <= i < |rs| ::
            StackFrame(i, rs[i]) in w <==> start <= i && (levels == 0 || i < start + levels))
      && (forall k | 0 <= k < |w| ::
            w[k].level == w[0].level + k && 0 <= w[k].level < |rs| && w[k].report == rs[w[k].level])
  {
    var all, w := Numbered(rs), Window(Numbered(rs), start, levels);
    var lo := Clamp(start, |all|);
    var hi := if levels == 0 then |all| else Clamp(start + levels, |all|);
    forall k | 0 <= k < |w| ensures w[k] == all[lo + k] {
    }
    forall i | 0 <= i < |rs| && start <= i && (levels == 0 || i < start + levels) ensures StackFrame(i, rs[i]) in w {
      assert w[i - lo] == all[i];
    }
  }

  /** A report outside the window leaves the window alone. */
  lemma WindowOutside(all: seq<StackFrame>, n: nat, start: int, levels: int)
    requires n < |all| && (n < start || (levels != 0 && n >= start + levels))
    ensures Window(all[..n + 1], start, levels) == Window(all[..n], start, levels)
  {
    if n < start {
      assert Window(all[..n], start, levels) == [];
    } else {
      var lo, hi := Clamp(start, n), Clamp(start + levels, n);
      if lo <= hi {
        assert all[..n + 1][lo..hi] == all[..n][lo..hi];
      }
    }
  }

  lemma WindowInside(all: seq<StackFrame>, n: nat, start: int, levels: int)
    requires n < |all| && start <= n && (levels == 0 || n < start + levels)
    ensures Window(all[..n + 1], start, levels) == Window(all[..n], start, levels) + [all[n]]
  {
    var lo := Clamp(start, n);
    assert Window(all[..n], start, levels) == all[..n][lo..n];
    assert Window(all[..n + 1], start, levels) == all[..n + 1][lo..n + 1];
  }

  /** Feeding the first `n` reports leaves the window on them. */
  lemma {:induction false} TraceFeed(rs: seq<Report>, n: nat, start: int, levels: int)
    requires n <= |rs|
    ensures Feed(TraceCallback(start, levels), TraceState(n - 1, Window(Numbered(rs)[..n], start, levels)), rs[n..])
         == (TraceState(|rs| - 1, Window(Numbered(rs), start, levels)), true)
    decreases |rs| - n
  {
    if n == |rs| {
      assert Numbered(rs)[..n] == Numbered(rs);
    } else {
      var all := Numbered(rs);
      if n < start || (levels != 0 && n >= start + levels) {
        WindowOutside(all, n, start, levels);
      } else {
        WindowInside(all, n, start, levels);
      }
      assert rs[n..][1..] == rs[n + 1..];
      TraceFeed(rs, n + 1, start, levels);
    }
  }

  // ---------------------------------------------------------------- GetFrameAt

  datatype FindState = FindState(current: int, result: Option<Frame>)

  function FindCallback(level: int): Callback<FindState> {
    (s: FindState, r: Report) =>
      var current := s.current + 1;
      if current < level then (FindState(current, s.result), true)
      else if current > level then (FindState(current, s.result), false)
      else (FindState(current, if r.frameType == FrameClrManaged then Some(r.frame) else s.result), false)
  }

  lemma {:induction false} FindFeed(rs: seq<Report>, level: int, n: nat)
    requires n <= |rs| && (n > 0 ==> n <= level)
    ensures var (s, ok) := Feed(FindCallback(level), FindState(n - 1, None), rs[n..]);
      && s.result == (if 0 <= level < |rs| && rs[level].frameType == FrameClrManaged then Some(rs[level].frame)
                      else None)
      && (ok <==> n == |rs| || level >= |rs|)
    decreases |rs| - n
  {
    if n < |rs| && n < level {
      assert rs[n..][1..] == rs[n + 1..];
      FindFeed(rs, level, n + 1);
    }
  }

  /** Yields the frame exactly when that entry of the full trace is managed.  The status is a
      success also when there is no such entry: past the end, and when nothing is reported. */
  method GetFrameAt(sort: seq<Frame> -> seq<Frame>, stops: seq<Stop>, level: int)
    returns (frame: Option<Frame>, success: bool)
    ensures var all := Reports(sort, stops);
      && frame == (if 0 <= level < |all| && all[level].frameType == FrameClrManaged then Some(all[level].frame)
                 else None)
      && (success <==> frame.Some? || level >= |all| || all == [])
  {
    var s, ok := WalkFrames(sort, stops, FindCallback(level), FindState(-1, None));
    FindFeed(Reports(sort, stops), level, 0);
    assert Reports(sort, stops)[0..] == Reports(sort, stops);
    frame, success := s.result, s.result.Some? || ok;
  }

  /** A success without a frame: any level behind the only, managed, frame. */
  lemma PastTheEnd(sort: seq<Frame> -> seq<Frame>, f: Frame, level: nat)
    requires Sorts(sort) && f.hasFunction && !f.isUnwindable && level >= 1
    ensures Reports(sort, [At(f)]) == [Report(FrameClrManaged, f)]
    ensures Feed(FindCallback(level), FindState(-1, None), Reports(sort, [At(f)])) == (FindState(0, None), true)
  {
    assert |multiset(sort([]))| == 0;
    assert Walked(sort, [], false, [At(f)][1..]) == [];
    var all := Reports(sort, [At(f)]);
    assert all == [Report(FrameClrManaged, f)];
    assert all[1..] == [];
  }
}
