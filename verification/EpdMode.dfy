/** The refresh-mode and power-mode machine of hwcomposer.cpp: `hwc_adajust_sf_vsync`,
    `hwc_handle_eink_mode`, `hwc_set` and `hwc_set_power_mode`.

    Property reads are arguments; queueing a frame, posting a picture and setting the
    skip-count property are events of a trace. */
module EpdMode {

  const EPD_NULL := -1
  const EPD_AUTO := 0
  const EPD_OVERLAY := 1
  const EPD_FULL_GC16 := 2
  const EPD_PART_GC16 := 7
  const EPD_A2 := 12
  const EPD_A2_DITHER := 13
  const EPD_DU := 14
  const EPD_DU4 := 15
  const EPD_SUSPEND := 18
  const EPD_RESUME := 19
  const EPD_POWER_OFF := 20
  const EPD_FORCE_FULL := 21

  const HWC_POWER_MODE_OFF := 0
  const HWC_POWER_MODE_NORMAL := 2
  const HWC_POWER_MODE_DOZE_SUSPEND := 3

  /** The pictures that a power-off may show. */
  datatype Picture = PowerOff | PowerOffNoPower | Standby | StandbyLowPower | StandbyCharge

  /** What is posted: a white screen, or a picture from the user's directory or the vendor's. */
  datatype Image = White | Logo(picture: Picture, fromUser: bool)

  datatype Event =
    | QueueFrame(mode: int)
    | PostPicture(image: Image, mode: int)
    | SetSkipCount(count: int)

  /** What a power-off reads: three properties of the power supply, which of the user's pictures can be read, and
      whether a white screen comes first. */
  datatype Surroundings = Surroundings(shutdown: bool, lowPower: bool, connected: bool, readable: set<Picture>,
                                       whiteFirst: bool)

  datatype Layer = Layer(hasHandle: bool, isFramebufferTarget: bool)

  /** The contents of one display; the source skips a null one. */
  datatype Display = NoContents | Contents(layers: seq<Layer>)

  /** The file-level and function-level statics that the four functions share. */
  datatype State = State(powerMode: int, currentMode: int, oneFullModeTime: int, lastMode: int, resumeCount: int,
                         notFullmodeCount: int)

  /** Their initial values. */
  const Initial := State(0, EPD_PART_GC16, 0, EPD_NULL, 5, 0)

  // ---- What each function does to the state, and the events it causes ----

  function SkipCountFor(mode: int): int {
    if mode in {EPD_AUTO, EPD_OVERLAY, EPD_A2, EPD_A2_DITHER, EPD_DU, EPD_DU4, EPD_RESUME, EPD_SUSPEND} then 5 else 2
  }

  /** A call takes effect only when it is neither swallowed nor a repetition. */
  predicate Accepts(s: State, mode: int) {
    && !(s.lastMode == EPD_SUSPEND && mode != EPD_RESUME)
    && !(s.lastMode == EPD_RESUME && mode != EPD_SUSPEND && s.resumeCount > 0)
    && mode != s.lastMode
  }

  function Adjusted(s: State, mode: int): State {
    if Accepts(s, mode) then
      s.(lastMode := mode,
         resumeCount := if mode == EPD_RESUME then 5
                        else if s.lastMode == EPD_RESUME && mode == EPD_SUSPEND then 0
                        else s.resumeCount)
    else if s.lastMode == EPD_RESUME && mode != EPD_SUSPEND && s.resumeCount > 0 then
      s.(resumeCount := s.resumeCount - 1)
    else s
  }

  function AdjustEvents(s: State, mode: int): seq<Event> {
    if Accepts(s, mode) then [SetSkipCount(SkipCountFor(mode))] else []
  }

  function Handled(s: State, request: int, timeline: int): State {
    if s.powerMode == EPD_POWER_OFF || s.powerMode == EPD_SUSPEND then s.(currentMode := EPD_SUSPEND)
    else if s.powerMode == EPD_RESUME then s.(currentMode := EPD_RESUME, powerMode := EPD_NULL)
    else if s.oneFullModeTime != timeline then s.(oneFullModeTime := timeline, currentMode := EPD_FORCE_FULL)
    else s.(currentMode := request)
  }

  function Frames(mode: int, n: nat): seq<Event> {
    seq(n, _ => QueueFrame(mode))
  }

  function TargetsIn(layers: seq<Layer>): nat {
    if layers == [] then 0
    else
      var l := layers[|layers| - 1];
      TargetsIn(layers[..|layers| - 1]) + if l.hasHandle && l.isFramebufferTarget then 1 else 0
  }

  /** How many layers of all displays get composed. */
  function Targets(displays: seq<Display>): nat {
    if displays == [] then 0
    else
      var d := displays[|displays| - 1];
      Targets(displays[..|displays| - 1]) + if d.NoContents? then 0 else TargetsIn(d.layers)
  }

  function AfterSet(s: State, request: int, timeline: int): State {
    Adjusted(Handled(s, request, timeline), request)
  }

  function SetEvents(s: State, request: int, timeline: int, targets: nat): seq<Event> {
    var h := Handled(s, request, timeline);
    AdjustEvents(h, request) + if h.currentMode == EPD_SUSPEND then [] else Frames(h.currentMode, targets)
  }

  function AfterPower(s: State, mode: int, env: Surroundings): State {
    if mode == HWC_POWER_MODE_OFF then
      if env.shutdown then s.(powerMode := EPD_POWER_OFF, currentMode := EPD_SUSPEND)
      else Adjusted(s.(powerMode := EPD_SUSPEND, currentMode := EPD_SUSPEND), EPD_SUSPEND)
    else if mode == HWC_POWER_MODE_NORMAL || mode == HWC_POWER_MODE_DOZE_SUSPEND then
      Adjusted(s.(powerMode := EPD_RESUME, currentMode := EPD_FULL_GC16, notFullmodeCount := 50), EPD_RESUME)
    else s
  }

  /** The picture for a power-off: on shutdown, whether there is power left; otherwise charging comes before
      low power. */
  function PictureFor(env: Surroundings): Picture {
    if env.shutdown then if env.lowPower then PowerOffNoPower else PowerOff
    else if env.connected then StandbyCharge
    else if env.lowPower then StandbyLowPower
    else Standby
  }

  function LogoFor(env: Surroundings): Image {
    Logo(PictureFor(env), PictureFor(env) in env.readable)
  }

  function LogoEvents(powerMode: int, image: Image, whiteFirst: bool): seq<Event> {
    (if whiteFirst then [PostPicture(White, EPD_PART_GC16)] else [])
    + [PostPicture(image, if powerMode == EPD_POWER_OFF then EPD_POWER_OFF else EPD_SUSPEND)]
  }

  function PowerEvents(s: State, mode: int, env: Surroundings): seq<Event> {
    if mode == HWC_POWER_MODE_OFF then
      if env.shutdown then LogoEvents(EPD_POWER_OFF, LogoFor(env), env.whiteFirst)
      else AdjustEvents(s, EPD_SUSPEND) + LogoEvents(EPD_SUSPEND, LogoFor(env), env.whiteFirst)
    else if mode == HWC_POWER_MODE_NORMAL || mode == HWC_POWER_MODE_DOZE_SUSPEND then AdjustEvents(s, EPD_RESUME)
    else []
  }

  // ---- The functions themselves ----

  class Composer {
    var gPowerMode: int
    var gCurrentEpdMode: int
    var gOneFullModeTime: int
    var lastMode: int
    var resumeCount: int
    var notFullmodeCount: int
    var trace: seq<Event>

    function Now(): State
      reads this
    {
      State(gPowerMode, gCurrentEpdMode, gOneFullModeTime, lastMode, resumeCount, notFullmodeCount)
    }

    constructor ()
      ensures Now() == Initial && trace == []
    {
      gPowerMode, gCurrentEpdMode, gOneFullModeTime := 0, EPD_PART_GC16, 0;
      lastMode, resumeCount, notFullmodeCount := EPD_NULL, 5, 0;
      trace := [];
    }

    method AdjustSfVsync(mode: int)
      modifies this
      ensures Now() == Adjusted(old(Now()), mode)
      ensures trace == old(trace) + AdjustEvents(old(Now()), mode)
    {
      if lastMode == EPD_SUSPEND && mode != EPD_RESUME {
        return;
      }
      if lastMode == EPD_RESUME && mode == EPD_SUSPEND {
        resumeCount := 0;
      }
      if lastMode == EPD_RESUME && resumeCount > 0 {
        resumeCount := resumeCount - 1;
        return;
      }
      if mode == lastMode {
        return;
      }
      var refreshSkipCount;
      if mode in {EPD_AUTO, EPD_OVERLAY, EPD_A2, EPD_A2_DITHER} {
        refreshSkipCount := 5;
      } else if mode in {EPD_DU, EPD_DU4} {
        refreshSkipCount := 5;
      } else if mode == EPD_RESUME {
        resumeCount := 5;
        refreshSkipCount := 5;
      } else if mode == EPD_SUSPEND {
        refreshSkipCount := 5;
      } else {
        refreshSkipCount := 2;
      }
      trace := trace + [SetSkipCount(refreshSkipCount)];
      lastMode := mode;
    }

    method HandleEinkMode(mode: int, timeline: int)
      modifies this
      ensures Now() == Handled(old(Now()), mode, timeline)
      ensures trace == old(trace)
    {
      if gPowerMode == EPD_POWER_OFF || gPowerMode == EPD_SUSPEND {
        gCurrentEpdMode := EPD_SUSPEND;
        return;
      }
      if gPowerMode == EPD_RESUME {
        gCurrentEpdMode := EPD_RESUME;
        gPowerMode := EPD_NULL;
        return;
      } else {
        if gOneFullModeTime != timeline {
          gOneFullModeTime := timeline;
          gCurrentEpdMode := EPD_FORCE_FULL;
        } else {
          gCurrentEpdMode := mode;
        }
      }
    }

    /** The layers of one display: each framebuffer target that has a buffer is queued. */
    method QueueLayers(layers: seq<Layer>, ghost before: seq<Event>, ghost queued: nat)
      requires trace == before + Frames(gCurrentEpdMode, queued)
      modifies this`trace
      ensures trace == before + Frames(gCurrentEpdMode, queued + TargetsIn(layers))
    {
      assert layers[..0] == [];
      for j := 0 to |layers|
        invariant trace == before + Frames(gCurrentEpdMode, queued + TargetsIn(layers[..j]))
      {
        assert layers[..j + 1][..j] == layers[..j];
        if layers[j].hasHandle && layers[j].isFramebufferTarget {
          trace := trace + [QueueFrame(gCurrentEpdMode)];
        }
      }
      assert layers[..|layers|] == layers;
    }

    /** `requestEpdMode` and `timeline` are the values of the two properties. */
    method Set(requestEpdMode: int, timeline: int, displays: seq<Display>)
      modifies this
      ensures Now() == AfterSet(old(Now()), requestEpdMode, timeline)
      ensures trace == old(trace) + SetEvents(old(Now()), requestEpdMode, timeline, Targets(displays))
    {
      HandleEinkMode(requestEpdMode, timeline);
      AdjustSfVsync(requestEpdMode);
      ghost var before := trace;
      ghost var s := Now();
      if gCurrentEpdMode != EPD_SUSPEND {
        assert displays[..0] == [];
        for i := 0 to |displays|
          invariant Now() == s
          invariant trace == before + Frames(gCurrentEpdMode, Targets(displays[..i]))
        {
          assert displays[..i + 1][..i] == displays[..i];
          if displays[i].NoContents? {
            continue;
          }
          QueueLayers(displays[i].layers, before, Targets(displays[..i]));
        }
        assert displays[..|displays|] == displays;
      }
    }

    /** hwc_post_epd_logo: what the picture looks like is not part of this model. */
    method PostEpdLogo(image: Image, whiteFirst: bool)
      modifies this
      ensures Now() == old(Now()).(currentMode := EPD_SUSPEND)
      ensures trace == old(trace) + LogoEvents(gPowerMode, image, whiteFirst)
    {
      if whiteFirst {
        trace := trace + [PostPicture(White, EPD_PART_GC16)];
      }
      gCurrentEpdMode := EPD_SUSPEND;
      if gPowerMode == EPD_POWER_OFF {
        trace := trace + [PostPicture(image, EPD_POWER_OFF)];
      } else {
        trace := trace + [PostPicture(image, EPD_SUSPEND)];
      }
      gCurrentEpdMode := EPD_SUSPEND;
    }

    method SetPowerMode(mode: int, env: Surroundings)
      modifies this
      ensures Now() == AfterPower(old(Now()), mode, env)
      ensures trace == old(trace) + PowerEvents(old(Now()), mode, env)
    {
      if mode == HWC_POWER_MODE_OFF {
        if env.shutdown {
          gPowerMode := EPD_POWER_OFF;
          gCurrentEpdMode := EPD_SUSPEND;
          if env.lowPower {
            PostEpdLogo(Logo(PowerOffNoPower, PowerOffNoPower in env.readable), env.whiteFirst);
          } else {
            PostEpdLogo(Logo(PowerOff, PowerOff in env.readable), env.whiteFirst);
          }
        } else {
          gPowerMode := EPD_SUSPEND;
          gCurrentEpdMode := EPD_SUSPEND;
          AdjustSfVsync(EPD_SUSPEND);
          if env.connected {
            PostEpdLogo(Logo(StandbyCharge, StandbyCharge in env.readable), env.whiteFirst);
          } else if env.lowPower {
            PostEpdLogo(Logo(StandbyLowPower, StandbyLowPower in env.readable), env.whiteFirst);
          } else {
            PostEpdLogo(Logo(Standby, Standby in env.readable), env.whiteFirst);
          }
        }
      } else if mode == HWC_POWER_MODE_DOZE_SUSPEND || mode == HWC_POWER_MODE_NORMAL {
        gPowerMode := EPD_RESUME;
        gCurrentEpdMode := EPD_FULL_GC16;
        notFullmodeCount := 50;
        AdjustSfVsync(EPD_RESUME);
      }
    }
  }
}
