/** Runs of the refresh-mode machine: what is queued is determined by the history of calls. */
module EpdModeTheorems {
  import opened EpdMode

  datatype Call =
    | SetFrame(request: int, timeline: int, targets: nat)
    | Power(mode: int, env: Surroundings)

  function After(s: State, c: Call): State {
    match c
    case SetFrame(request, timeline, _) => AfterSet(s, request, timeline)
    case Power(mode, env) => AfterPower(s, mode, env)
  }

  function Events(s: State, c: Call): seq<Event> {
    match c
    case SetFrame(request, timeline, targets) => SetEvents(s, request, timeline, targets)
    case Power(mode, env) => PowerEvents(s, mode, env)
  }

  /** The state after a history of calls, from the initial state. */
  function Run(cs: seq<Call>): State {
    if cs == [] then Initial else After(Run(cs[..|cs| - 1]), cs[|cs| - 1])
  }

  function RunEvents(cs: seq<Call>): seq<Event> {
    if cs == [] then [] else RunEvents(cs[..|cs| - 1]) + Events(Run(cs[..|cs| - 1]), cs[|cs| - 1])
  }

  predicate PowersOn(c: Call) {
    c.Power? && (c.mode == HWC_POWER_MODE_NORMAL || c.mode == HWC_POWER_MODE_DOZE_SUSPEND)
  }

  predicate PowersOff(c: Call) {
    c.Power? && c.mode == HWC_POWER_MODE_OFF
  }

  // ---- What matters of a history ----

  /** Powered off and not on again since. */
  predicate IsOff(cs: seq<Call>) {
    if cs == [] then false
    else
      var c := cs[|cs| - 1];
      PowersOff(c) || (!PowersOn(c) && IsOff(cs[..|cs| - 1]))
  }

  /** Powered on, and no frame set since. */
  predicate IsFresh(cs: seq<Call>) {
    if cs == [] then false
    else
      var c := cs[|cs| - 1];
      PowersOn(c) || (!PowersOff(c) && !c.SetFrame? && IsFresh(cs[..|cs| - 1]))
  }

  /** The timeline of the last frame that was set neither while off nor first after a power-on. */
  function SeenTimeline(cs: seq<Call>): int {
    if cs == [] then 0
    else
      var c, before := cs[|cs| - 1], cs[..|cs| - 1];
      if c.SetFrame? && !IsOff(before) && !IsFresh(before) then c.timeline else SeenTimeline(before)
  }

  /** The frames that setting a frame queues after a history: none for SUSPEND (18); RESUME is 19, FORCE_FULL 21. */
  function FramesAfter(cs: seq<Call>, request: int, timeline: int, targets: nat): seq<Event> {
    if IsOff(cs) then []
    else if IsFresh(cs) then Frames(19, targets)
    else if timeline != SeenTimeline(cs) then Frames(21, targets)
    else if request == 18 then []
    else Frames(request, targets)
  }

  function QueuedOf(es: seq<Event>): seq<Event> {
    if es == [] then []
    else QueuedOf(es[..|es| - 1]) + if es[|es| - 1].QueueFrame? then [es[|es| - 1]] else []
  }

  /** What one more call does to a history. */
  lemma OneMoreCall(cs: seq<Call>, c: Call)
    ensures IsOff(cs + [c]) <==> PowersOff(c) || (!PowersOn(c) && IsOff(cs))
    ensures IsFresh(cs + [c]) <==> PowersOn(c) || (!PowersOff(c) && !c.SetFrame? && IsFresh(cs))
    ensures SeenTimeline(cs + [c]) == if c.SetFrame? && !IsOff(cs) && !IsFresh(cs) then c.timeline else SeenTimeline(cs)
    ensures RunEvents(cs + [c]) == RunEvents(cs) + Events(Run(cs), c)
  {
    assert (cs + [c])[..|cs|] == cs;
  }

  lemma {:induction false} HistoryDecides(cs: seq<Call>)
    ensures IsOff(cs) <==> Run(cs).powerMode == EPD_POWER_OFF || Run(cs).powerMode == EPD_SUSPEND
    ensures IsFresh(cs) <==> Run(cs).powerMode == EPD_RESUME
    ensures Run(cs).oneFullModeTime == SeenTimeline(cs)
  {
    if cs != [] {
      HistoryDecides(cs[..|cs| - 1]);
    }
  }

  lemma {:induction false} QueuedOfConcat(a: seq<Event>, b: seq<Event>)
    ensures QueuedOf(a + b) == QueuedOf(a) + QueuedOf(b)
  {
    if b == [] {
      assert a + b == a;
    } else {
      var n := |b| - 1;
      assert (a + b)[..|a + b| - 1] == a + b[..n];
      QueuedOfConcat(a, b[..n]);
    }
  }

  lemma {:induction false} QueuedOfFrames(mode: int, n: nat)
    ensures QueuedOf(Frames(mode, n)) == Frames(mode, n)
  {
    if n > 0 {
      assert Frames(mode, n)[..n - 1] == Frames(mode, n - 1);
      QueuedOfFrames(mode, n - 1);
    }
  }

  lemma QueuedOfOthers(es: seq<Event>)
    requires |es| <= 3 && forall e :: e in es ==> !e.QueueFrame?
    ensures QueuedOf(es) == []
  {
    if es != [] {
      QueuedOfOthers(es[..|es| - 1]);
      assert es[|es| - 1] in es;
    }
  }

  /** Setting a frame queues exactly what the history says: nothing while off; EPD_RESUME for the first frame
      after a power-on; EPD_FORCE_FULL when the timeline differs from the last one taken note of, however long
      ago and whatever happened while off; the requested mode otherwise. No other call queues a frame. */
  lemma QueuedByHistory(cs: seq<Call>, c: Call)
    ensures QueuedOf(Events(Run(cs), c))
         == if c.SetFrame? then FramesAfter(cs, c.request, c.timeline, c.targets) else []
  {
    HistoryDecides(cs);
    match c {
      case SetFrame(request, timeline, targets) =>
        var h := Handled(Run(cs), request, timeline);
        QueuedOfConcat(AdjustEvents(h, request),
                       if h.currentMode == EPD_SUSPEND then [] else Frames(h.currentMode, targets));
        QueuedOfOthers(AdjustEvents(h, request));
        QueuedOfFrames(h.currentMode, targets);
      case Power(_, _) =>
        QueuedOfOthers(Events(Run(cs), c));
    }
  }

  /** From a power-off to the next power-on no frame is queued. */
  lemma {:induction false} NothingQueuedWhileOff(cs: seq<Call>, off: Call, later: seq<Call>)
    requires PowersOff(off) && forall c :: c in later ==> !PowersOn(c)
    ensures IsOff(cs + [off] + later)
    ensures QueuedOf(RunEvents(cs + [off] + later)) == QueuedOf(RunEvents(cs))
  {
    hide IsOff, IsFresh, Run, RunEvents, Events, QueuedOf;
    if later == [] {
      assert cs + [off] + later == cs + [off];
      OneMoreCall(cs, off);
      QueuedOfConcat(RunEvents(cs), Events(Run(cs), off));
      QueuedByHistory(cs, off);
    } else {
      var n := |later| - 1;
      var before := cs + [off] + later[..n];
      assert cs + [off] + later == before + [later[n]];
      assert later[n] in later;
      NothingQueuedWhileOff(cs, off, later[..n]);
      OneMoreCall(before, later[n]);
      QueuedOfConcat(RunEvents(before), Events(Run(before), later[n]));
      QueuedByHistory(before, later[n]);
    }
  }

  /** After a power-on the first frame is queued as EPD_RESUME; without further power calls and requests for
      EPD_RESUME itself, no later one is. */
  lemma {:induction false} OnlyFirstFrameResumes(cs: seq<Call>, on: Call, first: Call, later: seq<Call>)
    requires PowersOn(on) && first.SetFrame?
    requires forall c :: c in later ==> c.SetFrame? && c.request != EPD_RESUME
    ensures QueuedOf(Events(Run(cs + [on]), first)) == Frames(EPD_RESUME, first.targets)
    ensures forall k {:trigger later[k]} :: 0 <= k < |later| ==>
      QueueFrame(EPD_RESUME) !in QueuedOf(Events(Run(cs + [on, first] + later[..k]), later[k]))
  {
    FreshAfterOn(cs, on);
    hide Run, Events, QueuedOf, IsFresh, IsOff, Frames, SeenTimeline;
    QueuedByHistory(cs + [on], first);
    forall k {:trigger later[k]} | 0 <= k < |later|
      ensures QueueFrame(EPD_RESUME) !in QueuedOf(Events(Run(cs + [on, first] + later[..k]), later[k]))
    {
      LaterNotResumed(cs, on, first, later, k);
    }
  }

  lemma FreshAfterOn(cs: seq<Call>, on: Call)
    requires PowersOn(on)
    ensures IsFresh(cs + [on]) && !IsOff(cs + [on])
  {
    assert (cs + [on])[..|cs|] == cs;
  }

  lemma LaterNotResumed(cs: seq<Call>, on: Call, first: Call, later: seq<Call>, k: nat)
    requires first.SetFrame? && k < |later|
    requires forall c :: c in later ==> c.SetFrame? && c.request != EPD_RESUME
    ensures QueueFrame(EPD_RESUME) !in QueuedOf(Events(Run(cs + [on, first] + later[..k]), later[k]))
  {
    assert later[k] in later;
    hide Run, Events, QueuedOf, IsFresh, IsOff, SeenTimeline;
    NotFresh(cs, on, first, later[..k]);
    QueuedByHistory(cs + [on, first] + later[..k], later[k]);
  }

  lemma {:induction false} NotFresh(cs: seq<Call>, on: Call, first: Call, later: seq<Call>)
    requires first.SetFrame? && forall c :: c in later ==> c.SetFrame?
    ensures !IsFresh(cs + [on, first] + later)
  {
    var all := cs + [on, first] + later;
    if later == [] {
      assert all[|all| - 1] == first;
    } else {
      assert later[|later| - 1] in later;
      assert all[|all| - 1] == later[|later| - 1];
    }
  }

  /** A timeline change made while off is acted on by the second frame after power-on, and by no later one while the
      timeline stays: every later frame is queued as requested. */
  lemma TimelineChangeWhileOff(cs: seq<Call>, off: Call, away: seq<Call>, on: Call, first: Call, second: Call,
                               later: seq<Call>)
    requires PowersOff(off) && PowersOn(on) && forall c :: c in away ==> !PowersOn(c)
    requires first.SetFrame? && second.SetFrame?
    requires SameTimeline(later, second.timeline)
    ensures var h := cs + [off] + away + [on, first];
            QueuedOf(Events(Run(h), second))
            == FramesFor(if second.timeline != SeenTimeline(cs) then EPD_FORCE_FULL else second.request, second.targets)
    ensures forall k {:trigger later[k]} :: 0 <= k < |later| ==>
      var queued := QueuedOf(Events(Run(cs + [off] + away + [on, first, second] + later[..k]), later[k]));
      && queued == FramesFor(later[k].request, later[k].targets)
      && (later[k].request != EPD_FORCE_FULL ==> QueueFrame(EPD_FORCE_FULL) !in queued)
  {
    hide IsOff, IsFresh, SeenTimeline, Run, RunEvents, Events, QueuedOf;
    var h0 := cs + [off] + away;
    SeenWhileOff(cs, off, away);
    OneMoreCall(h0, on);
    OneMoreCall(h0 + [on], first);
    var h2 := h0 + [on] + [first];
    OneMoreCall(h2, second);
    assert h2 == h0 + [on, first] && h2 + [second] == h0 + [on, first, second];
    QueuedByHistory(h2, second);
    forall k {:trigger later[k]} | 0 <= k < |later|
      ensures var queued := QueuedOf(Events(Run(h0 + [on, first, second] + later[..k]), later[k]));
              && queued == FramesFor(later[k].request, later[k].targets)
              && (later[k].request != EPD_FORCE_FULL ==> QueueFrame(EPD_FORCE_FULL) !in queued)
    {
      SteadyTimeline(h0 + [on, first, second], second.timeline, later[..k]);
      QueuedByHistory(h0 + [on, first, second] + later[..k], later[k]);
    }
  }

  /** The power is on, at least one frame has been set since, and the timeline t has been taken note of. */
  predicate Steady(cs: seq<Call>, t: int) {
    !IsOff(cs) && !IsFresh(cs) && SeenTimeline(cs) == t
  }

  ghost predicate SameTimeline(cs: seq<Call>, t: int) {
    forall k :: 0 <= k < |cs| ==> cs[k].SetFrame? && cs[k].timeline == t
  }

  lemma SteadyNext(cs: seq<Call>, t: int, c: Call)
    requires Steady(cs, t) && c.SetFrame? && c.timeline == t
    ensures Steady(cs + [c], t)
  {
    OneMoreCall(cs, c);
    hide IsOff, IsFresh, SeenTimeline;
  }

  lemma LastApart(cs: seq<Call>, later: seq<Call>)
    requires later != []
    ensures cs + later == (cs + later[..|later| - 1]) + [later[|later| - 1]]
    ensures later == later[..|later| - 1] + [later[|later| - 1]]
  {
  }

  lemma {:induction false} SteadyTimeline(cs: seq<Call>, t: int, later: seq<Call>)
    requires Steady(cs, t) && SameTimeline(later, t)
    ensures Steady(cs + later, t)
  {
    if later == [] {
      assert cs + later == cs;
    } else {
      var n := |later| - 1;
      assert SameTimeline(later[..n], t);
      hide *;
      SteadyTimeline(cs, t, later[..n]);
      SteadyNext(cs + later[..n], t, later[n]);
      LastApart(cs, later);
    }
  }

  function FramesFor(mode: int, n: nat): seq<Event> {
    if mode == EPD_SUSPEND then [] else Frames(mode, n)
  }

  lemma {:induction false} SeenWhileOff(cs: seq<Call>, off: Call, away: seq<Call>)
    requires PowersOff(off) && forall c :: c in away ==> !PowersOn(c)
    ensures IsOff(cs + [off] + away) && SeenTimeline(cs + [off] + away) == SeenTimeline(cs)
  {
    var all := cs + [off] + away;
    if away == [] {
      assert all[..|all| - 1] == cs;
    } else {
      var n := |away| - 1;
      assert all[..|all| - 1] == cs + [off] + away[..n];
      assert away[n] in away;
      SeenWhileOff(cs, off, away[..n]);
    }
  }

  // ---- The skip-count property ----

  /** The last value written to the property; none has been written while it is -1. */
  function SkipCount(es: seq<Event>): int {
    if es == [] then -1
    else if es[|es| - 1].SetSkipCount? then es[|es| - 1].count
    else SkipCount(es[..|es| - 1])
  }

  ghost predicate Writes(es: seq<Event>) {
    exists e :: e in es && e.SetSkipCount?
  }

  lemma {:induction false} SkipCountConcat(a: seq<Event>, b: seq<Event>)
    ensures Writes(a + b) <==> Writes(a) || Writes(b)
    ensures SkipCount(a + b) == if Writes(b) then SkipCount(b) else SkipCount(a)
  {
    if b == [] {
      assert a + b == a;
    } else {
      var n := |b| - 1;
      assert (a + b)[..|a + b| - 1] == a + b[..n];
      assert b == b[..n] + [b[n]];
      SkipCountConcat(a, b[..n]);
    }
  }

  lemma AdjustWrites(s: State, mode: int)
    ensures Writes(AdjustEvents(s, mode)) <==> Adjusted(s, mode).lastMode != s.lastMode
    ensures Writes(AdjustEvents(s, mode)) ==>
      SkipCount(AdjustEvents(s, mode)) == SkipCountFor(Adjusted(s, mode).lastMode)
  {
    if Accepts(s, mode) {
      assert AdjustEvents(s, mode)[0] in AdjustEvents(s, mode);
    }
  }

  /** Five for AUTO, OVERLAY, A2, A2_DITHER, DU, DU4, SUSPEND and RESUME, two for every other mode. */
  function CountOf(mode: int): int {
    if mode in {0, 1, 12, 13, 14, 15, 18, 19} then 5 else 2
  }

  lemma CountsAre(mode: int)
    ensures SkipCountFor(mode) == CountOf(mode)
  {
  }

  /** A call writes the property exactly when it changes `last_mode`. */
  lemma SkipCountOfCall(s: State, c: Call)
    ensures Writes(Events(s, c)) <==> After(s, c).lastMode != s.lastMode
    ensures After(s, c).lastMode != s.lastMode ==> SkipCount(Events(s, c)) == CountOf(After(s, c).lastMode)
  {
    CountsAre(After(s, c).lastMode);
    hide CountOf;
    hide SkipCount, AdjustEvents, Adjusted, SkipCountFor;
    match c {
      case SetFrame(request, timeline, targets) =>
        var h := Handled(s, request, timeline);
        var tail := if h.currentMode == EPD_SUSPEND then [] else Frames(h.currentMode, targets);
        SkipCountConcat(AdjustEvents(h, request), tail);
        assert forall e :: e in tail ==> e.QueueFrame?;
        AdjustWrites(h, request);
      case Power(mode, env) =>
        SkipCountOfPower(s, mode, env);
    }
  }

  lemma SkipCountOfPower(s: State, mode: int, env: Surroundings)
    ensures Writes(PowerEvents(s, mode, env)) <==> AfterPower(s, mode, env).lastMode != s.lastMode
    ensures AfterPower(s, mode, env).lastMode != s.lastMode ==>
      SkipCount(PowerEvents(s, mode, env)) == SkipCountFor(AfterPower(s, mode, env).lastMode)
  {
    var image, whiteFirst := LogoFor(env), env.whiteFirst;
    LogoDoesNotWrite(EPD_SUSPEND, image, whiteFirst);
    LogoDoesNotWrite(EPD_POWER_OFF, image, whiteFirst);
    SkipCountConcat(AdjustEvents(s, EPD_SUSPEND), LogoEvents(EPD_SUSPEND, image, whiteFirst));
    AdjustWrites(s, EPD_SUSPEND);
    AdjustWrites(s, EPD_RESUME);
    assert !Writes([]);
    hide SkipCount, Writes, LogoEvents, LogoFor, SkipCountFor;
  }

  lemma LogoDoesNotWrite(powerMode: int, image: Image, whiteFirst: bool)
    ensures !Writes(LogoEvents(powerMode, image, whiteFirst))
  {
  }

  /** Once anything has been written, the property is the count that belongs to `last_mode`. */
  lemma {:induction false} SkipCountMatchesLastMode(cs: seq<Call>)
    ensures SkipCount(RunEvents(cs)) == -1 ==> Run(cs).lastMode == EPD_NULL
    ensures SkipCount(RunEvents(cs)) != -1 ==>
      SkipCount(RunEvents(cs)) == if Run(cs).lastMode in {0, 1, 12, 13, 14, 15, 18, 19} then 5 else 2
  {
    if cs != [] {
      var before, c := cs[..|cs| - 1], cs[|cs| - 1];
      SkipCountMatchesLastMode(before);
      SkipCountOfCall(Run(before), c);
      SkipCountConcat(RunEvents(before), Events(Run(before), c));
      hide Events, After, Writes;
      assert Run(before).lastMode == Run(cs).lastMode ==> SkipCount(RunEvents(cs)) == SkipCount(RunEvents(before));
    }
  }

  // ---- What the power calls do besides ----

  function PicturesOf(es: seq<Event>): seq<Event> {
    if es == [] then []
    else PicturesOf(es[..|es| - 1]) + if es[|es| - 1].PostPicture? then [es[|es| - 1]] else []
  }

  lemma {:induction false} PicturesOfConcat(a: seq<Event>, b: seq<Event>)
    ensures PicturesOf(a + b) == PicturesOf(a) + PicturesOf(b)
  {
    if b == [] {
      assert a + b == a;
    } else {
      var n := |b| - 1;
      assert (a + b)[..|a + b| - 1] == a + b[..n];
      PicturesOfConcat(a, b[..n]);
    }
  }

  lemma {:induction false} NoPictures(es: seq<Event>)
    requires forall e :: e in es ==> !e.PostPicture?
    ensures PicturesOf(es) == []
  {
    if es != [] {
      assert es[|es| - 1] in es;
      NoPictures(es[..|es| - 1]);
    }
  }

  lemma PicturesOfLogo(powerMode: int, image: Image, whiteFirst: bool)
    ensures PicturesOf(LogoEvents(powerMode, image, whiteFirst)) == LogoEvents(powerMode, image, whiteFirst)
  {
    var last := [PostPicture(image, if powerMode == EPD_POWER_OFF then EPD_POWER_OFF else EPD_SUSPEND)];
    var white := [PostPicture(White, EPD_PART_GC16)];
    var none: seq<Event> := [];
    assert last[..0] == none && white[..0] == none;
    PicturesOfConcat(white, last);
    PicturesOfConcat(none, last);
  }

  lemma PostedIs(s: State, env: Surroundings)
    ensures PicturesOf(Events(s, Power(0, env)))
         == (if env.whiteFirst then [PostPicture(White, 7)] else [])
            + [PostPicture(LogoFor(env), if env.shutdown then 20 else 18)]
  {
    var image, pm := LogoFor(env), if env.shutdown then EPD_POWER_OFF else EPD_SUSPEND;
    var logo := LogoEvents(pm, image, env.whiteFirst);
    NoPictures(AdjustEvents(s, EPD_SUSPEND));
    assert Events(s, Power(0, env)) == if env.shutdown then logo else AdjustEvents(s, EPD_SUSPEND) + logo;
    assert logo == (if env.whiteFirst then [PostPicture(White, 7)] else [])
                   + [PostPicture(image, if env.shutdown then 20 else 18)];
    hide PicturesOf, AdjustEvents, LogoFor, LogoEvents, Events;
    PicturesOfLogo(pm, image, env.whiteFirst);
    PicturesOfConcat(AdjustEvents(s, EPD_SUSPEND), logo);
  }

  /** A power-off posts a white screen in mode 7 first if asked to. Then, on shutdown, it posts the picture for no power
      if power is low and else the one for power-off, in mode 20; otherwise the picture for charging if the charger is
      connected, else the one for low power if power is low, else the one for standby, in mode 18. The picture comes
      from the user's directory if it can be read there. */
  lemma PowerOffPosts(s: State, env: Surroundings)
    ensures var white := if env.whiteFirst then [PostPicture(White, 7)] else [];
            var posted := PicturesOf(Events(s, Power(0, env)));
            && (env.shutdown && env.lowPower ==>
                  posted == white + [PostPicture(Logo(PowerOffNoPower, PowerOffNoPower in env.readable), 20)])
            && (env.shutdown && !env.lowPower ==>
                  posted == white + [PostPicture(Logo(PowerOff, PowerOff in env.readable), 20)])
            && (!env.shutdown && env.connected ==>
                  posted == white + [PostPicture(Logo(StandbyCharge, StandbyCharge in env.readable), 18)])
            && (!env.shutdown && !env.connected && env.lowPower ==>
                  posted == white + [PostPicture(Logo(StandbyLowPower, StandbyLowPower in env.readable), 18)])
            && (!env.shutdown && !env.connected && !env.lowPower ==>
                  posted == white + [PostPicture(Logo(Standby, Standby in env.readable), 18)])
  {
    PostedIs(s, env);
    hide PicturesOf, Events;
  }

  /** The property is written first: by a frame when its request becomes the last mode, by a power-off that is not a
      shutdown when the last mode is not SUSPEND, by a power-on when it is not RESUME. */
  lemma EventOrder(s: State, c: Call)
    ensures Events(s, c)
         == (match c
             case SetFrame(request, _, _) =>
               if After(s, c).lastMode != s.lastMode then [SetSkipCount(CountOf(request))] else []
             case Power(mode, env) =>
               if (mode == 0 && !env.shutdown && s.lastMode != 18) || (mode in {2, 3} && s.lastMode != 19)
               then [SetSkipCount(5)] else [])
            + PicturesOf(Events(s, c)) + QueuedOf(Events(s, c))
  {
    match c
    case SetFrame(request, timeline, targets) =>
      OrderOfFrame(s, request, timeline, targets);
    case Power(mode, env) =>
      OrderOfPower(s, mode, env);
  }

  lemma OrderOfFrame(s: State, request: int, timeline: int, targets: nat)
    ensures var es := SetEvents(s, request, timeline, targets);
            && PicturesOf(es) == []
            && es == (if AfterSet(s, request, timeline).lastMode != s.lastMode then [SetSkipCount(CountOf(request))]
                      else []) + QueuedOf(es)
  {
    var h := Handled(s, request, timeline);
    var frames := if h.currentMode == EPD_SUSPEND then [] else Frames(h.currentMode, targets);
    CountsAre(request);
    assert AdjustEvents(h, request) == if AfterSet(s, request, timeline).lastMode != s.lastMode
                                       then [SetSkipCount(CountOf(request))] else [];
    assert SetEvents(s, request, timeline, targets) == AdjustEvents(h, request) + frames;
    hide *;
    WrittenThenQueued(h, request, h.currentMode, frames, targets);
  }

  lemma WrittenThenQueued(s: State, request: int, mode: int, frames: seq<Event>, n: nat)
    requires frames == [] || frames == Frames(mode, n)
    ensures PicturesOf(AdjustEvents(s, request) + frames) == [] && QueuedOf(AdjustEvents(s, request) + frames) == frames
  {
    var written := AdjustEvents(s, request);
    NoPictures(written);
    NoPictures(frames);
    QueuedOfOthers(written);
    assert QueuedOf([]) == [];
    hide *;
    QueuedOfFrames(mode, n);
    QueuedOfConcat(written, frames);
    PicturesOfConcat(written, frames);
  }

  lemma OrderOfPower(s: State, mode: int, env: Surroundings)
    ensures var es := PowerEvents(s, mode, env);
            && QueuedOf(es) == []
            && es == (if (mode == 0 && !env.shutdown && s.lastMode != 18) || (mode in {2, 3} && s.lastMode != 19)
                      then [SetSkipCount(5)] else []) + PicturesOf(es)
  {
    QueuedOfOthers(PowerEvents(s, mode, env));
    if mode == 0 {
      PostedIs(s, env);
    } else {
      NoPictures(PowerEvents(s, mode, env));
    }
    hide QueuedOf, PicturesOf, LogoFor;
  }

  /** No other call posts a picture. */
  lemma OnlyPowerOffPosts(s: State, c: Call)
    requires !(c.Power? && c.mode == 0)
    ensures PicturesOf(Events(s, c)) == []
  {
    NoPictures(Events(s, c));
  }

  /** Power modes 2 and 3 set the count of frames up to the next full refresh to 50, and no other call touches it. */
  lemma FullModeCount(s: State, c: Call)
    ensures After(s, c).notFullmodeCount == if c.Power? && c.mode in {2, 3} then 50 else s.notFullmodeCount
  {
  }

  /** The display's mode after a call: 18 after a power-off, 2 after a power-on; power modes other than 0, 2 and 3 do
      nothing at all. */
  lemma PowerModes(s: State, mode: int, env: Surroundings)
    ensures mode == 0 ==> After(s, Power(mode, env)).currentMode == 18
    ensures mode in {2, 3} ==> After(s, Power(mode, env)).currentMode == 2
    ensures mode !in {0, 2, 3} ==> After(s, Power(mode, env)) == s && Events(s, Power(mode, env)) == []
  {
  }

  // ---- How many layers are queued ----

  /** The framebuffer targets with a buffer, over all displays with contents. */
  function TargetPlaces(displays: seq<Display>): set<(nat, nat)> {
    set i: nat, j: nat | i < |displays| && displays[i].Contents? && j < |displays[i].layers|
                         && displays[i].layers[j].hasHandle && displays[i].layers[j].isFramebufferTarget :: (i, j)
  }

  function PlacesIn(i: nat, layers: seq<Layer>): set<(nat, nat)> {
    set j: nat | j < |layers| && layers[j].hasHandle && layers[j].isFramebufferTarget :: (i, j)
  }

  lemma {:induction false} CountPlaces(i: nat, layers: seq<Layer>)
    ensures |PlacesIn(i, layers)| == TargetsIn(layers)
  {
    if layers != [] {
      var n := |layers| - 1;
      var l := layers[n];
      CountPlaces(i, layers[..n]);
      LastPlace(i, layers);
      hide PlacesIn;
    }
  }

  lemma LastPlace(i: nat, layers: seq<Layer>)
    requires layers != []
    ensures var n := |layers| - 1; var before := PlacesIn(i, layers[..n]);
            && (i, n) !in before
            && PlacesIn(i, layers)
               == before + if layers[n].hasHandle && layers[n].isFramebufferTarget then {(i, n)} else {}
  {
  }

  /** There are as many frames as such layers. */
  lemma {:induction false} TargetsCounted(displays: seq<Display>)
    ensures Targets(displays) == |TargetPlaces(displays)|
  {
    if displays != [] {
      var n := |displays| - 1;
      var before := displays[..n];
      TargetsCounted(before);
      LastPlaces(displays);
      if displays[n].Contents? {
        CountPlaces(n, displays[n].layers);
        assert TargetPlaces(before) !! PlacesIn(n, displays[n].layers);
      }
      hide TargetPlaces, PlacesIn;
    }
  }

  lemma LastPlaces(displays: seq<Display>)
    requires displays != []
    ensures var n := |displays| - 1;
            TargetPlaces(displays)
            == TargetPlaces(displays[..n]) + if displays[n].Contents? then PlacesIn(n, displays[n].layers) else {}
  {
    var n := |displays| - 1;
    forall i: nat, j: nat
      ensures (i, j) in TargetPlaces(displays)
         <==> (i, j) in TargetPlaces(displays[..n])
              || (displays[n].Contents? && (i, j) in PlacesIn(n, displays[n].layers))
    {
      assert i < n ==> displays[..n][i] == displays[i];
    }
  }

  // ---- SUSPEND and RESUME as seen by hwc_adajust_sf_vsync ----

  /** A mode becomes the last mode unless a SUSPEND (18) holds against everything but a RESUME (19), or a RESUME with
      swallowing left holds against everything but a SUSPEND. */
  lemma ModeTaken(s: State, mode: int)
    ensures Adjusted(s, mode).lastMode
         == if (s.lastMode == 18 && mode != 19) || (s.lastMode == 19 && s.resumeCount > 0 && mode != 18)
            then s.lastMode else mode
  {
  }

  function AdjustRun(s: State, modes: seq<int>): State {
    if modes == [] then s else Adjusted(AdjustRun(s, modes[..|modes| - 1]), modes[|modes| - 1])
  }

  /** SUSPEND is left only by RESUME. */
  lemma {:induction false} SuspendHolds(s: State, modes: seq<int>)
    requires s.lastMode == EPD_SUSPEND && EPD_RESUME !in modes
    ensures AdjustRun(s, modes) == s
  {
    if modes != [] {
      assert modes[|modes| - 1] in modes;
      SuspendHolds(s, modes[..|modes| - 1]);
    }
  }

  /** An accepted RESUME swallows the next five calls other than SUSPEND. */
  lemma {:induction false} ResumeSwallowsFive(s: State, modes: seq<int>)
    requires Accepts(s, EPD_RESUME) && EPD_SUSPEND !in modes && |modes| <= 5
    ensures AdjustRun(Adjusted(s, EPD_RESUME), modes) == Adjusted(s, EPD_RESUME).(resumeCount := 5 - |modes|)
  {
    if modes != [] {
      var n := |modes| - 1;
      assert modes[n] in modes;
      ResumeSwallowsFive(s, modes[..n]);
    }
  }

  /** It swallows no sixth one, and never a SUSPEND. */
  lemma ResumeSwallowsNoMore(s: State, modes: seq<int>, mode: int)
    requires Accepts(s, EPD_RESUME) && EPD_SUSPEND !in modes && |modes| <= 5
    requires mode != EPD_RESUME
    ensures Accepts(AdjustRun(Adjusted(s, EPD_RESUME), modes), mode) <==> mode == EPD_SUSPEND || |modes| == 5
  {
    ResumeSwallowsFive(s, modes);
  }

  // ---- and in a run ----

  /** The modes that a call passes to hwc_adajust_sf_vsync. */
  function Passed(c: Call): seq<int> {
    match c
    case SetFrame(request, _, _) => [request]
    case Power(mode, env) =>
      if mode == HWC_POWER_MODE_OFF then if env.shutdown then [] else [EPD_SUSPEND]
      else if mode == HWC_POWER_MODE_NORMAL || mode == HWC_POWER_MODE_DOZE_SUSPEND then [EPD_RESUME]
      else []
  }

  function PassedBy(cs: seq<Call>): seq<int> {
    if cs == [] then [] else PassedBy(cs[..|cs| - 1]) + Passed(cs[|cs| - 1])
  }

  /** The two statics of hwc_adajust_sf_vsync. */
  function Statics(s: State): (int, int) {
    (s.lastMode, s.resumeCount)
  }

  lemma AdjustOfStatics(s: State, t: State, mode: int)
    requires Statics(s) == Statics(t)
    ensures Statics(Adjusted(s, mode)) == Statics(Adjusted(t, mode)) && (Accepts(s, mode) <==> Accepts(t, mode))
  {
  }

  /** What a call does to the statics is what the modes it passes do. */
  lemma CallAdjusts(s: State, t: State, c: Call)
    requires Statics(s) == Statics(t)
    ensures Statics(After(s, c)) == Statics(AdjustRun(t, Passed(c)))
  {
    match c {
      case SetFrame(request, timeline, _) =>
        AdjustOne(t, request);
        AdjustOfStatics(Handled(s, request, timeline), t, request);
      case Power(mode, env) =>
        AdjustOne(t, EPD_SUSPEND);
        AdjustOne(t, EPD_RESUME);
    }
  }

  lemma AdjustOne(s: State, mode: int)
    ensures AdjustRun(s, [mode]) == Adjusted(s, mode)
  {
    var none: seq<int> := [];
    assert [mode][..0] == none;
  }

  lemma {:induction false} AdjustRunConcat(s: State, a: seq<int>, b: seq<int>)
    ensures AdjustRun(s, a + b) == AdjustRun(AdjustRun(s, a), b)
  {
    if b == [] {
      assert a + b == a;
    } else {
      var n := |b| - 1;
      assert (a + b)[..|a + b| - 1] == a + b[..n];
      AdjustRunConcat(s, a, b[..n]);
    }
  }

  /** In any run, `last_mode` and `resume_count` are what the modes passed so far make of them. */
  lemma {:induction false} RunAdjusts(cs: seq<Call>, more: seq<Call>)
    ensures Statics(Run(cs + more)) == Statics(AdjustRun(Run(cs), PassedBy(more)))
    decreases |more|
  {
    if more == [] {
      assert cs + more == cs && AdjustRun(Run(cs), PassedBy(more)) == Run(cs);
    } else {
      hide *;
      var init, last := more[..|more| - 1], more[|more| - 1];
      RunAdjusts(cs, init);
      RunStep(cs + init, last);
      RunStep(init, last);
      LastApart(cs, more);
      CallAdjusts(Run(cs + init), AdjustRun(Run(cs), PassedBy(init)), last);
      AdjustRunConcat(Run(cs), PassedBy(init), Passed(last));
    }
  }

  lemma RunStep(cs: seq<Call>, c: Call)
    ensures Run(cs + [c]) == After(Run(cs), c) && PassedBy(cs + [c]) == PassedBy(cs) + Passed(c)
  {
    assert (cs + [c])[..|cs|] == cs;
  }

  /** So in a run too a suspended `last_mode` stays until a call passes RESUME. */
  lemma RunStaysSuspended(cs: seq<Call>, more: seq<Call>)
    requires Run(cs).lastMode == EPD_SUSPEND && EPD_RESUME !in PassedBy(more)
    ensures Run(cs + more).lastMode == EPD_SUSPEND
  {
    RunAdjusts(cs, more);
    SuspendHolds(Run(cs), PassedBy(more));
  }

  /** And after a power-on that is not a repetition the next five modes other than SUSPEND are swallowed, no sixth. */
  lemma RunSwallowsFive(cs: seq<Call>, on: Call, more: seq<Call>, mode: int)
    requires PowersOn(on) && Accepts(Run(cs), EPD_RESUME)
    requires EPD_SUSPEND !in PassedBy(more) && |PassedBy(more)| <= 5 && mode != EPD_RESUME
    ensures Run(cs + [on] + more).lastMode == EPD_RESUME
    ensures Accepts(Run(cs + [on] + more), mode) <==> mode == EPD_SUSPEND || |PassedBy(more)| == 5
  {
    var after, s := Run(cs + [on]), Adjusted(Run(cs), EPD_RESUME);
    assert (cs + [on])[..|cs|] == cs;
    AdjustOfStatics(after, s, EPD_RESUME);
    RunAdjusts(cs + [on], more);
    StaticsDecide(after, s, PassedBy(more));
    ResumeSwallowsFive(Run(cs), PassedBy(more));
    ResumeSwallowsNoMore(Run(cs), PassedBy(more), mode);
    AdjustOfStatics(Run(cs + [on] + more), AdjustRun(s, PassedBy(more)), mode);
  }

  lemma {:induction false} StaticsDecide(s: State, t: State, modes: seq<int>)
    requires Statics(s) == Statics(t)
    ensures Statics(AdjustRun(s, modes)) == Statics(AdjustRun(t, modes))
  {
    if modes != [] {
      var n := |modes| - 1;
      StaticsDecide(s, t, modes[..n]);
      AdjustOfStatics(AdjustRun(s, modes[..n]), AdjustRun(t, modes[..n]), modes[n]);
    }
  }
}
