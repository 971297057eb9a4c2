// The per-bulb record both bulb managers keep (`BulbState` in
// backend/bulb_manager.py and, identically, services/bulb_manager.py), and
// the updates the managers apply to it. The dataclass is only ever changed
// through the manager's `bulbs` dict, so it is a value here and the manager
// classes reassign their map entry. Times are seconds on one clock, passed in.

module BulbStates {
  import opened Common
  import opened ColorMath
  import opened Protocol

  datatype BulbState = BulbState(
    name: string, ip: string,
    online: bool, on: bool,
    r: int, g: int, b: int, warmWhite: int,
    h: real, s: real, v: real,
    lastUpdated: Option<real>, lastCommandTime: Option<real>,
    pollInterval: int, consecutiveFailures: int)

  /** `BulbState(name=name, ip=ip)`: offline, off, black, never updated or
      commanded, polled every 60 s. */
  function NewBulb(name: string, ip: string): (bulb: BulbState)
    ensures Valid(bulb) && bulb.name == name && bulb.ip == ip
    ensures !bulb.online && !bulb.on && bulb.lastUpdated.None? && bulb.lastCommandTime.None?
    ensures bulb.r == 0 && bulb.g == 0 && bulb.b == 0 && bulb.warmWhite == 0
    ensures bulb.h == 0.0 && bulb.s == 0.0 && bulb.v == 0.0
    ensures bulb.consecutiveFailures == 0 && bulb.pollInterval == 60
  {
    RgbToHsvRanges(0, 0, 0);
    BulbState(name, ip, false, false, 0, 0, 0, 0, 0.0, 0.0, 0.0, None, None, 60, 0)
  }

  // ---------------------------------------------------------------------
  // Invariants every update keeps

  /** The poll interval `_update_poll_interval` assigns after `k`
      consecutive failures: a fixed table, not a doubling. */
  function BackoffInterval(k: int): int
  {
    if k <= 0 then 60 else if k == 1 then 120 else if k == 2 then 300 else 600
  }

  /** The cached HSV is what `_update_hsv_from_rgb` derives from the cached
      channels. */
  predicate HsvMatches(bulb: BulbState)
  {
    if bulb.warmWhite > 0 then bulb.h == 0.0 && bulb.s == 0.0 && bulb.v == WarmWhitePercent(bulb.warmWhite)
    else Hsv(bulb.h, bulb.s, bulb.v) == RgbToHsv(bulb.r, bulb.g, bulb.b)
  }

  /** What the managers maintain for every bulb: byte channels (anything
      else never reaches the device, so it is never cached), an HSV that
      matches them, and a poll interval that agrees with the failure count. */
  predicate Valid(bulb: BulbState)
  {
    0 <= bulb.r < 256 && 0 <= bulb.g < 256 && 0 <= bulb.b < 256 && 0 <= bulb.warmWhite < 256 &&
    HsvMatches(bulb) &&
    bulb.consecutiveFailures >= 0 && bulb.pollInterval == BackoffInterval(bulb.consecutiveFailures)
  }

  // ---------------------------------------------------------------------
  // Updates

  /** `(warm_white / 255) * 100`. */
  function WarmWhitePercent(ww: int): real
  {
    (ww as real / 255.0) * 100.0
  }

  /** `_update_hsv_from_rgb(bulb)` at time `now`. */
  function UpdateHsv(bulb: BulbState, now: real): (c: BulbState)
    ensures HsvMatches(c) && c.lastUpdated == Some(now)
    ensures c == bulb.(h := c.h, s := c.s, v := c.v, lastUpdated := Some(now))
  {
    if bulb.warmWhite > 0 then bulb.(h := 0.0, s := 0.0, v := WarmWhitePercent(bulb.warmWhite), lastUpdated := Some(now))
    else
      var hsv := RgbToHsv(bulb.r, bulb.g, bulb.b);
      bulb.(h := hsv.h, s := hsv.s, v := hsv.v, lastUpdated := Some(now))
  }

  /** The effect of a successful `set_power(name, on)` finishing at `now`. */
  function ApplyPower(bulb: BulbState, on: bool, now: real): BulbState
  {
    bulb.(on := on, lastCommandTime := Some(now))
  }

  /** The effect of a successful `set_rgb(name, r, g, b)` finishing at `now`. */
  function ApplyRgb(bulb: BulbState, r: int, g: int, b: int, now: real): BulbState
  {
    UpdateHsv(bulb.(on := true, r := r, g := g, b := b, warmWhite := 0, lastCommandTime := Some(now)), now)
  }

  /** `int((brightness / 100) * 255)`: the warm-white byte for a
      percentage. */
  function WarmWhiteByte(brightness: int): int
  {
    Trunc((brightness as real / 100.0) * 255.0)
  }

  /** The effect of a successful `set_warm_white(name, brightness)`
      finishing at `now`; `ww` is `WarmWhiteByte(brightness)`. */
  function ApplyWarmWhite(bulb: BulbState, ww: int, now: real): BulbState
  {
    UpdateHsv(bulb.(on := true, r := 0, g := 0, b := 0, warmWhite := ww, lastCommandTime := Some(now)), now)
  }

  /** `_update_poll_interval(bulb, success)`. */
  function UpdatePollInterval(bulb: BulbState, success: bool): (c: BulbState)
    ensures bulb.consecutiveFailures >= 0 ==> c.pollInterval == BackoffInterval(c.consecutiveFailures)
    ensures c.pollInterval in {60, 120, 300, 600}
    ensures success ==> c.consecutiveFailures == 0
    ensures !success ==> c.consecutiveFailures == bulb.consecutiveFailures + 1
    ensures c == bulb.(pollInterval := c.pollInterval, consecutiveFailures := c.consecutiveFailures)
  {
    if success then bulb.(consecutiveFailures := 0, pollInterval := 60)
    else
      var k := bulb.consecutiveFailures + 1;
      bulb.(consecutiveFailures := k, pollInterval := if k == 1 then 120 else if k == 2 then 300 else 600)
  }

  /** The status dict `refresh_bulb` reads with `.get`: each key may be
      missing. */
  datatype StatusDict = StatusDict(
    online: Option<bool>, on: Option<bool>,
    r: Option<int>, g: Option<int>, b: Option<int>, warmWhite: Option<int>)

  function Get<T>(o: Option<T>, default: T): T
  {
    if o.Some? then o.value else default
  }

  /** The dict `get_status` returns: every key present. */
  function FromStatus(st: Status): (d: StatusDict)
    ensures d.online.Some? && d.on.Some? && d.r.Some? && d.g.Some? && d.b.Some? && d.warmWhite.Some?
  {
    StatusDict(Some(st.online), Some(st.on), Some(st.r), Some(st.g), Some(st.b), Some(st.warmWhite))
  }

  /** Every channel the dict carries is a byte. */
  predicate ByteChannels(d: StatusDict)
  {
    (d.r.Some? ==> 0 <= d.r.value < 256) && (d.g.Some? ==> 0 <= d.g.value < 256) &&
    (d.b.Some? ==> 0 <= d.b.value < 256) && (d.warmWhite.Some? ==> 0 <= d.warmWhite.value < 256)
  }

  /** The querying part of `refresh_bulb` at `now`: `status` is `None` when
      `get_status` raised or returned something other than a dict. The new
      record's `online` is what `refresh_bulb` returns. */
  function Refresh(bulb: BulbState, status: Option<StatusDict>, now: real): (c: BulbState)
    ensures c.name == bulb.name && c.ip == bulb.ip && c.lastCommandTime == bulb.lastCommandTime
    ensures c.pollInterval == bulb.pollInterval && c.consecutiveFailures == bulb.consecutiveFailures
  {
    match status
    case None => bulb.(online := false)
    case Some(d) =>
      UpdateHsv(bulb.(online := Get(d.online, false), on := Get(d.on, false),
                      r := Get(d.r, bulb.r), g := Get(d.g, bulb.g), b := Get(d.b, bulb.b),
                      warmWhite := Get(d.warmWhite, bulb.warmWhite)), now)
  }

  /** A command was sent less than `window` seconds before `now`. A bulb
      never commanded has no last command time and never qualifies. */
  predicate CommandedWithin(bulb: BulbState, now: real, window: real)
  {
    bulb.lastCommandTime.Some? && now - bulb.lastCommandTime.value < window
  }

  /** `_should_skip_bulb`: commanded less than 10 s ago. */
  predicate ShouldSkip(bulb: BulbState, now: real)
  {
    CommandedWithin(bulb, now, 10.0)
  }

  /** The guard at the top of `refresh_bulb`: commanded less than 5 s ago. */
  predicate RefreshGuard(bulb: BulbState, now: real)
  {
    CommandedWithin(bulb, now, 5.0)
  }

  /** The selection in `_background_polling_loop`: a bulb never updated has
      an infinite elapsed time and is always due; otherwise it is due once
      `poll_interval` seconds have passed. */
  predicate PollDue(bulb: BulbState, now: real)
  {
    bulb.lastUpdated.None? || now - bulb.lastUpdated.value >= bulb.pollInterval as real
  }

  /** The API record of `to_dict` (the `round(..., 1)` of h, s and v is not
      modelled: the fields carry the unrounded values). */
  datatype BulbDict = BulbDict(
    name: string, online: bool, on: bool,
    r: int, g: int, b: int, warmWhite: int,
    h: real, s: real, v: real,
    hex: string, brightness: int, isWarmWhite: bool)

  /** `to_dict()`. */
  function ToDict(bulb: BulbState): BulbDict
  {
    BulbDict(bulb.name, bulb.online, bulb.on, bulb.r, bulb.g, bulb.b, bulb.warmWhite,
             bulb.h, bulb.s, bulb.v, RgbToHex(bulb.r, bulb.g, bulb.b),
             if bulb.warmWhite == 0 then Trunc(bulb.v) else Trunc(WarmWhitePercent(bulb.warmWhite)),
             bulb.warmWhite > 0)
  }

  // ---------------------------------------------------------------------
  // Properties

  /** Each successful update keeps the record valid, given channels that
      reached the device (bytes) and, for a refresh, a dict of byte
      channels. */
  lemma UpdatesPreserveValid(bulb: BulbState, now: real)
    requires Valid(bulb)
    ensures forall on: bool :: Valid(ApplyPower(bulb, on, now))
    ensures forall r: byte, g: byte, b: byte :: Valid(ApplyRgb(bulb, r, g, b, now))
    ensures forall ww: byte :: Valid(ApplyWarmWhite(bulb, ww, now))
    ensures forall success: bool :: Valid(UpdatePollInterval(bulb, success))
  {
  }

  lemma RefreshPreservesValid(bulb: BulbState, status: Option<StatusDict>, now: real)
    requires Valid(bulb)
    requires status.Some? ==> ByteChannels(status.value)
    ensures Valid(Refresh(bulb, status, now))
  {
  }

  /** After a successful `set_rgb` the record holds exactly the new colour,
      powered on, out of warm-white mode, stamped with the command time,
      and its HSV turns back into the same colour. */
  lemma ApplyRgbEffect(bulb: BulbState, r: byte, g: byte, b: byte, now: real)
    ensures var c := ApplyRgb(bulb, r, g, b, now);
      c.on && c.r == r && c.g == g && c.b == b && c.warmWhite == 0 &&
      c.lastCommandTime == Some(now) && c.lastUpdated == Some(now) &&
      HsvToRgb(c.h, c.s, c.v) == Rgb(r, g, b) &&
      c.name == bulb.name && c.online == bulb.online &&
      c.pollInterval == bulb.pollInterval && c.consecutiveFailures == bulb.consecutiveFailures
  {
    HsvRoundTrip(r, g, b);
  }

  /** After a successful `set_warm_white` the channels are black, the
      warm-white byte is set, and the value percentage is that byte's
      share of 255. */
  lemma ApplyWarmWhiteEffect(bulb: BulbState, ww: byte, now: real)
    ensures var c := ApplyWarmWhite(bulb, ww, now);
      c.on && c.r == 0 && c.g == 0 && c.b == 0 && c.warmWhite == ww &&
      c.lastCommandTime == Some(now) &&
      (ww > 0 ==> c.h == 0.0 && c.s == 0.0 && c.v == ww as real * 100.0 / 255.0) &&
      (ww == 0 ==> c.v == 0.0) &&
      c.online == bulb.online && c.pollInterval == bulb.pollInterval
  {
    RgbToHsvRanges(0, 0, 0);
  }

  /** `set_power` changes only the power flag and the command time. */
  lemma ApplyPowerEffect(bulb: BulbState, on: bool, now: real)
    ensures ApplyPower(bulb, on, now).on == on
    ensures ApplyPower(bulb, on, now).lastCommandTime == Some(now)
    ensures ApplyPower(bulb, on, now).(on := bulb.on, lastCommandTime := bulb.lastCommandTime) == bulb
  {
  }

  /** The warm-white byte of a percentage is a byte exactly for the
      percentages 0..100; 100 gives full brightness and 0 gives 0. */
  lemma WarmWhiteByteRange(brightness: int)
    ensures 0 <= WarmWhiteByte(brightness) < 256 <==> 0 <= brightness <= 100
    ensures WarmWhiteByte(100) == 255 && WarmWhiteByte(0) == 0
  {
    if brightness > 100 {
      assert (brightness as real / 100.0) * 255.0 >= 257.55;
    } else if brightness < 0 {
      assert (brightness as real / 100.0) * 255.0 <= -2.55;
    }
  }

  /** A larger percentage never gives a smaller warm-white byte. */
  lemma WarmWhiteByteMonotone(p: int, q: int)
    requires p <= q
    ensures WarmWhiteByte(p) <= WarmWhiteByte(q)
  {
    assert (p as real / 100.0) * 255.0 <= (q as real / 100.0) * 255.0;
  }

  /** Setting warm white to `p` percent and reading `brightness` back from
      `to_dict` gives `p` or `p - 1`: both conversions truncate. */
  lemma WarmWhiteBrightnessRoundTrip(bulb: BulbState, p: int, now: real)
    requires 0 <= p <= 100
    ensures var d := ToDict(ApplyWarmWhite(bulb, WarmWhiteByte(p), now));
      p - 1 <= d.brightness <= p && (d.isWarmWhite <==> p > 0)
  {
    WarmWhiteByteRange(p);
    var ww := WarmWhiteByte(p);
    var x := (p as real / 100.0) * 255.0;
    assert ww as real <= x < ww as real + 1.0;
    RgbToHsvRanges(0, 0, 0);
    if p > 0 {
      assert ww > 0 by {
        assert x >= 2.55;
      }
      var y := WarmWhitePercent(ww);
      assert y == ww as real * 100.0 / 255.0;
      assert y <= p as real;
      assert y > p as real - 100.0 / 255.0;
    } else {
      assert ww == 0;
    }
  }

  /** The interval after `k` failures in a row, applied to a record in any
      state, is the table entry for the failure count reached. */
  function FailTimes(bulb: BulbState, k: nat): BulbState
  {
    if k == 0 then bulb else UpdatePollInterval(FailTimes(bulb, k - 1), false)
  }

  /** From a success, the k-th consecutive failure sets the interval to
      120, 300, 600, 600, ...: never more than 600, never back down until a
      success. */
  lemma {:induction false} BackoffSequence(bulb: BulbState, k: nat)
    ensures var c := FailTimes(UpdatePollInterval(bulb, true), k);
      c.consecutiveFailures == k && c.pollInterval == BackoffInterval(k)
  {
    if k > 0 {
      BackoffSequence(bulb, k - 1);
    }
  }

  /** A failure never shortens the interval of a valid record; a success
      always restores 60 s. */
  lemma BackoffMonotone(bulb: BulbState)
    requires Valid(bulb)
    ensures UpdatePollInterval(bulb, false).pollInterval >= bulb.pollInterval
    ensures UpdatePollInterval(bulb, false).pollInterval <= 600
    ensures UpdatePollInterval(bulb, true).pollInterval == 60
  {
  }

  /** The refresh guard (5 s) is inside the polling skip window (10 s): a
      poll that was not skipped always reaches the device. */
  lemma RefreshGuardWithinSkip(bulb: BulbState, now: real)
    ensures RefreshGuard(bulb, now) ==> ShouldSkip(bulb, now)
    ensures !ShouldSkip(bulb, now) ==> !RefreshGuard(bulb, now)
  {
  }

  /** The skip window is strict and starts at the command: a bulb never
      commanded is never skipped; one commanded exactly 10 s ago is polled. */
  lemma SkipWindow(bulb: BulbState, t: real)
    ensures bulb.lastCommandTime.None? ==> !ShouldSkip(bulb, t)
    ensures bulb.lastCommandTime == Some(t) ==> ShouldSkip(bulb, t + 9.5) && !ShouldSkip(bulb, t + 10.0)
  {
  }

  /** A record never updated is always due; otherwise it becomes due exactly
      when `poll_interval` seconds have elapsed, and then stays due. */
  lemma PollDueWindow(bulb: BulbState, now: real, later: real)
    requires now <= later
    ensures bulb.lastUpdated.None? ==> PollDue(bulb, now)
    ensures bulb.lastUpdated.Some? ==>
              (PollDue(bulb, now) <==> now >= bulb.lastUpdated.value + bulb.pollInterval as real)
    ensures PollDue(bulb, now) ==> PollDue(bulb, later)
  {
  }

  /** Refreshing from what `get_status` returns: online exactly when the
      reply had 14 bytes; an offline reply overwrites every channel with 0
      (the offline record carries every key), and an online one stores the
      reply's bytes 6..9. */
  lemma RefreshFromStatus(bulb: BulbState, reply: Option<seq<byte>>, now: real)
    ensures var c := Refresh(bulb, Some(FromStatus(GetStatus(reply))), now);
      (c.online <==> reply.Some? && |reply.value| >= 14) &&
      (!c.online ==> !c.on && c.r == 0 && c.g == 0 && c.b == 0 && c.warmWhite == 0) &&
      (c.online ==> [c.r, c.g, c.b, c.warmWhite] == reply.value[6..10] && (c.on <==> reply.value[2] == 0x23)) &&
      c.lastUpdated == Some(now)
  {
  }

  /** Missing keys keep the prior channel values, while missing `online`
      and `on` read as false; a non-dict status only clears `online`. */
  lemma RefreshKeepsMissing(bulb: BulbState, now: real)
    ensures var c := Refresh(bulb, Some(StatusDict(None, None, None, None, None, None)), now);
      !c.online && !c.on && c.r == bulb.r && c.g == bulb.g && c.b == bulb.b &&
      c.warmWhite == bulb.warmWhite
    ensures Refresh(bulb, None, now) == bulb.(online := false)
  {
  }

  /** The API record of a valid bulb: `brightness` is a percentage, the hex
      string reads back as the channels, and warm-white mode is `ww > 0`.
      In RGB mode the brightness is the brightest channel's percentage. */
  lemma ToDictFacts(bulb: BulbState)
    requires Valid(bulb)
    ensures var d := ToDict(bulb);
      0 <= d.brightness <= 100 &&
      HexToRgb(d.hex) == Some(Rgb(bulb.r, bulb.g, bulb.b)) &&
      (d.isWarmWhite <==> bulb.warmWhite > 0) &&
      (bulb.warmWhite == 0 ==> d.brightness == Trunc(Max3(bulb.r, bulb.g, bulb.b) as real * 100.0 / 255.0))
  {
    var d := ToDict(bulb);
    assert HexToRgb(d.hex) == Some(Rgb(bulb.r, bulb.g, bulb.b)) by {
      HexRoundTrip(bulb.r, bulb.g, bulb.b);
    }
    var level := if bulb.warmWhite == 0 then bulb.v else WarmWhitePercent(bulb.warmWhite);
    assert 0.0 <= level <= 100.0 && (bulb.warmWhite == 0 ==> level == Max3(bulb.r, bulb.g, bulb.b) as real * 100.0 / 255.0) by {
      RgbToHsvRanges(bulb.r, bulb.g, bulb.b);
    }
    assert d.brightness == Trunc(level);
    TruncMonotone(0.0, level);
    TruncMonotone(level, 100.0);
    TruncOfInt(0);
    TruncOfInt(100);
  }
}
