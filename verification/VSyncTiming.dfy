/** vsyncworker.cpp: when the next vsync falls due (`GetPhasedVSync`, `SyntheticWaitVBlank`). */
module VSyncTiming {

  const ONE_SECOND_NS := 1_000_000_000

  /** C's division: it truncates toward zero. */
  function Div(a: int, b: int): int
    requires b > 0
  {
    if a >= 0 then a / b else -(-a / b)
  }

  function PhasedVSync(last: int, frame: int, current: int): int
    requires frame > 0
  {
    if last < 0 then current + frame
    else frame * (Div(current - last, frame) + 1) + last
  }

  /** With no last timestamp, the next vsync is a whole frame away. */
  lemma FirstVSync(last: int, frame: int, current: int)
    requires frame > 0 && last < 0
    ensures PhasedVSync(last, frame, current) == current + frame
  {
  }

  ghost predicate InPhase(t: int, last: int, frame: int) {
    exists k: int :: t == last + k * frame
  }

  lemma DivBounds(a: int, b: int)
    requires a >= 0 && b > 0
    ensures b * (a / b) <= a < b * (a / b) + b
  {
  }

  lemma MulStrict(a: int, b: int, f: int)
    requires f > 0
    ensures f * a < f * b ==> a < b
    ensures a <= b ==> f * a <= f * b
  {
  }

  /** With a last timestamp not in the future, the next vsync is the least in-phase time after now:
      at most one frame away and a positive number of frames after the last one. */
  lemma NextVSyncIsLeast(last: int, frame: int, current: int)
    requires frame > 0 && 0 <= last <= current
    ensures var t := PhasedVSync(last, frame, current);
            && current < t <= current + frame
            && InPhase(t, last, frame)
            && t > last
            && forall u :: u > current && InPhase(u, last, frame) ==> t <= u
  {
    var q := (current - last) / frame;
    var t := PhasedVSync(last, frame, current);
    DivBounds(current - last, frame);
    assert t == frame * (q + 1) + last;
    assert frame * (q + 1) == frame * q + frame;
    assert t == last + (q + 1) * frame;
    forall u | u > current && InPhase(u, last, frame)
      ensures t <= u
    {
      var k: int :| u == last + k * frame;
      assert frame * k > frame * q;
      MulStrict(q, k, frame);
      MulStrict(q + 1, k, frame);
    }
  }

  lemma PhaseKept(a: int, b: int, c: int, frame: int)
    requires InPhase(b, a, frame) && InPhase(c, b, frame)
    ensures InPhase(c, a, frame)
  {
    var k: int :| b == a + k * frame;
    var m: int :| c == b + m * frame;
    assert c == a + (k + m) * frame;
  }

  lemma InPhaseWithItself(a: int, frame: int)
    ensures InPhase(a, a, frame)
  {
    assert a == a + 0 * frame;
  }

  /** What one call of clock_nanosleep returned, and whether errno was EINTR. */
  datatype Sleep = Sleep(ret: int, eintr: bool)

  predicate Retried(s: Sleep) {
    s.ret == -1 && s.eintr
  }

  /** The wait: `last` is last_timestamp_, the clock reading comes as seconds and nanoseconds, and `sleeps`
      are the results of the successive calls of clock_nanosleep, of which the first not to be retried counts. */
  method SyntheticWaitVBlank(last: int, frame: int, tvSec: int, tvNsec: int, sleeps: seq<Sleep>)
    returns (ret: int, timestamp: int, vsyncSec: int, vsyncNsec: int)
    requires frame > 0 && 0 <= tvSec && 0 <= tvNsec < 1_000_000_000
    requires last <= tvSec * 1_000_000_000 + tvNsec
    requires exists k :: 0 <= k < |sleeps| && !Retried(sleeps[k])
    ensures exists k :: 0 <= k < |sleeps| && ret == sleeps[k].ret && !(ret == -1 && sleeps[k].eintr)
                        && forall j :: 0 <= j < k ==> sleeps[j] == Sleep(-1, true)
    ensures 0 <= vsyncNsec < 1_000_000_000
    ensures var now, target := tvSec * 1_000_000_000 + tvNsec, vsyncSec * 1_000_000_000 + vsyncNsec;
            && (ret == 0 ==> timestamp == target)
            && (last < 0 ==> target == now + frame)
            && (last >= 0 ==> now < target <= now + frame && InPhase(target, last, frame))
  {
    var phased := PhasedVSync(last, frame, tvSec * ONE_SECOND_NS + tvNsec);
    if last >= 0 {
      NextVSyncIsLeast(last, frame, tvSec * ONE_SECOND_NS + tvNsec);
    }
    vsyncSec := Div(phased, ONE_SECOND_NS);
    vsyncNsec := phased - vsyncSec * ONE_SECOND_NS;
    var k := 0;
    ret := sleeps[k].ret;
    while Retried(sleeps[k])
      invariant k < |sleeps| && ret == sleeps[k].ret
      invariant forall j :: 0 <= j < k ==> Retried(sleeps[j])
      decreases |sleeps| - k
    {
      k := k + 1;
      ret := sleeps[k].ret;
    }
    timestamp := 0;
    if ret != 0 {
      return;
    }
    timestamp := vsyncSec * ONE_SECOND_NS + vsyncNsec;
  }
}
