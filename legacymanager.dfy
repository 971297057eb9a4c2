// The older bulb manager of services/bulb_manager.py. It keeps the same
// per-bulb record as the current one, but its setters send at once (no
// per-bulb throttle), and `set_group_rgb` collects its targets in a set:
// direct bulb names plus every member of a named group, members not
// filtered against the configured bulbs. The `asyncio.gather` over that set
// becomes one `set_rgb` after another in the set's (unspecified) order, all
// at the same clock value `now`; the device's answer is an input.

module ServicesBulbManager {
  import opened Common
  import opened Protocol
  import opened ColorMath
  import opened BulbStates
  import BackendBulbManager
  import opened Targets

  // ---------------------------------------------------------------------
  // Group targets

  /** What one entry of `group_names` adds to `target_bulbs`: itself when
      it names a bulb, else every member of the group it names (configured
      or not), else nothing. */
  function TargetsOf(known: set<string>, groups: map<string, seq<string>>, t: string): set<string>
  {
    if t in known then {t} else if t in groups then set m | m in groups[t] else {}
  }

  /** `target_bulbs` after the loop over `names`. */
  function GroupTargets(known: set<string>, groups: map<string, seq<string>>, names: seq<string>): set<string>
  {
    if names == [] then {}
    else GroupTargets(known, groups, names[..|names| - 1]) + TargetsOf(known, groups, names[|names| - 1])
  }

  /** A name is a target exactly when some entry of `names` is that bulb,
      or is a group (not shadowed by a bulb of the same name) listing it. */
  lemma {:induction false} GroupTargetsMembers(known: set<string>, groups: map<string, seq<string>>,
                                               names: seq<string>, x: string)
    ensures x in GroupTargets(known, groups, names) <==>
              exists i | 0 <= i < |names| ::
                (names[i] in known && x == names[i]) ||
                (names[i] !in known && names[i] in groups && x in groups[names[i]])
  {
    if names != [] {
      var k := |names| - 1;
      GroupTargetsMembers(known, groups, names[..k], x);
      if x in GroupTargets(known, groups, names[..k]) {
        var i :| 0 <= i < k && ((names[..k][i] in known && x == names[..k][i]) ||
                                (names[..k][i] !in known && names[..k][i] in groups && x in groups[names[..k][i]]));
        assert names[..k][i] == names[i];
      } else if x in TargetsOf(known, groups, names[k]) {
      } else {
        forall i | 0 <= i < |names|
          ensures !((names[i] in known && x == names[i]) ||
                    (names[i] !in known && names[i] in groups && x in groups[names[i]]))
        {
          if i < k {
            assert names[..k][i] == names[i];
          }
        }
      }
    }
  }

  /** `GroupTargets` grows one entry at a time. */
  lemma GroupTargetsSnoc(known: set<string>, groups: map<string, seq<string>>, names: seq<string>, i: nat)
    requires i < |names|
    ensures GroupTargets(known, groups, names[..i + 1]) ==
              GroupTargets(known, groups, names[..i]) + TargetsOf(known, groups, names[i])
  {
    assert names[..i + 1][..i] == names[..i];
  }

  /** Unlike the current manager, a member of a named group that is not a
      configured bulb is still a target, and its `set_rgb` reports false. */
  lemma UnconfiguredMemberReported(known: set<string>, groups: map<string, seq<string>>, names: seq<string>,
                                   i: nat, m: string, reachable: set<string>, r: int, g: int, b: int)
    requires i < |names| && names[i] !in known && names[i] in groups && m in groups[names[i]] && m !in known
    ensures m in GroupTargets(known, groups, names)
    ensures !GroupSuccess(known, reachable, r, g, b, m)
  {
    GroupTargetsMembers(known, groups, names, m);
  }

  // ---------------------------------------------------------------------
  // The effect of a group command

  /** The records after every bulb of `hit` got `paint`, the others
      unchanged. */
  ghost function Painted(before: map<string, BulbState>, hit: set<string>, paint: BulbState -> BulbState)
    : map<string, BulbState>
  {
    map n | n in before :: if n in hit then paint(before[n]) else before[n]
  }

  /** `set_rgb(name, r, g, b)` succeeding at `now`. */
  function RgbAt(r: int, g: int, b: int, now: real): BulbState -> BulbState
  {
    (c: BulbState) => ApplyRgb(c, r, g, b, now)
  }

  /** Painting one more bulb, not painted before, changes only its record. */
  lemma PaintedStep(before: map<string, BulbState>, hit: set<string>, paint: BulbState -> BulbState, x: string)
    requires x in before && x !in hit
    ensures Painted(before, hit + {x}, paint) == Painted(before, hit, paint)[x := paint(before[x])]
  {
  }

  /** Whether the device accepted a `set_rgb` to `n` in a group command:
      `n` must be configured (an unconfigured group member fails in
      `set_rgb` without a send), the channels bytes and the device must
      acknowledge. */
  predicate GroupSuccess(known: set<string>, reachable: set<string>, r: int, g: int, b: int, n: string)
  {
    n in known && n in reachable && 0 <= r < 256 && 0 <= g < 256 && 0 <= b < 256
  }

  /** The targets whose `set_rgb` succeeded. */
  function Succeeded(targets: set<string>, known: set<string>, reachable: set<string>, r: int, g: int, b: int)
    : set<string>
  {
    set n | n in targets && GroupSuccess(known, reachable, r, g, b, n)
  }

  /** Sending to one more target adds it to the successes exactly when it
      succeeds. */
  lemma SucceededAdd(sent: set<string>, name: string, known: set<string>, reachable: set<string>,
                     r: int, g: int, b: int)
    ensures Succeeded(sent + {name}, known, reachable, r, g, b) ==
              Succeeded(sent, known, reachable, r, g, b) + (if GroupSuccess(known, reachable, r, g, b, name) then {name} else {})
  {
  }

  /** Sending to one more target records its outcome in the result map. */
  lemma OutcomeAdd(sent: set<string>, name: string, known: set<string>, reachable: set<string>,
                   r: int, g: int, b: int, results: map<string, bool>)
    requires results == map n | n in sent :: GroupSuccess(known, reachable, r, g, b, n)
    ensures results[name := GroupSuccess(known, reachable, r, g, b, name)] ==
              map n | n in sent + {name} :: GroupSuccess(known, reachable, r, g, b, n)
  {
  }

  /** After a group command every target that succeeded holds the colour,
      powered on, out of warm-white mode, stamped `now`, with an HSV that
      turns back into the same colour; every other bulb, target or not,
      keeps its record. */
  lemma GroupRgbEffect(before: map<string, BulbState>, targets: set<string>, reachable: set<string>,
                       r: byte, g: byte, b: byte, now: real)
    ensures var after := Painted(before, Succeeded(targets, before.Keys, reachable, r, g, b), RgbAt(r, g, b, now));
      after.Keys == before.Keys &&
      (forall n | n in targets && n in before && n in reachable ::
         after[n].on && after[n].r == r && after[n].g == g && after[n].b == b && after[n].warmWhite == 0 &&
         after[n].lastCommandTime == Some(now) && HsvToRgb(after[n].h, after[n].s, after[n].v) == Rgb(r, g, b)) &&
      (forall n | n in before && (n !in targets || n !in reachable) :: after[n] == before[n])
  {
    forall n | n in targets && n in before && n in reachable
      ensures var c := ApplyRgb(before[n], r, g, b, now);
        c.on && c.r == r && c.g == g && c.b == b && c.warmWhite == 0 &&
        c.lastCommandTime == Some(now) && HsvToRgb(c.h, c.s, c.v) == Rgb(r, g, b)
    {
      ApplyRgbEffect(before[n], r, g, b, now);
    }
  }

  /** `log` is `before` followed by every name of `added` exactly once, in
      some order: the notifications of a `gather`, whose order is not
      fixed. */
  ghost predicate LoggedOnce(before: seq<string>, log: seq<string>, added: set<string>)
  {
    |before| <= |log| && log[..|before|] == before &&
    NoDup(log[|before|..]) && forall n :: n in log[|before|..] <==> n in added
  }

  lemma LoggedOnceStep(before: seq<string>, log: seq<string>, added: set<string>, x: string)
    requires LoggedOnce(before, log, added) && x !in added
    ensures LoggedOnce(before, log + [x], added + {x})
  {
    assert (log + [x])[..|before|] == log[..|before|];
    assert (log + [x])[|before|..] == log[|before|..] + [x];
  }

  /** The invariant: the order lists each bulb once, and every record is
      valid and filed under its own name. */
  ghost predicate Registered(bulbs: map<string, BulbState>, names: seq<string>)
  {
    NoDup(names) &&
    (forall n :: n in bulbs <==> n in names) &&
    forall n | n in bulbs :: BulbStates.Valid(bulbs[n]) && bulbs[n].name == n
  }

  class BulbManager {
    /** `bulbs` (and, with the same keys, `controllers`). */
    var bulbs: map<string, BulbState>
    /** The configuration order of `bulbs`. */
    var names: seq<string>
    var groups: map<string, seq<string>>
    /** The bulbs whose subscribers were notified, in order. */
    var notified: seq<string>

    ghost predicate Valid()
      reads this
    {
      Registered(bulbs, names)
    }

    /** `__init__` with a loaded configuration: one fresh record per
        configured bulb. */
    constructor (config: seq<(string, string)>, groups: map<string, seq<string>>)
      requires forall i, j | 0 <= i < j < |config| :: config[i].0 != config[j].0
      ensures Valid()
      ensures names == seq(|config|, i requires 0 <= i < |config| => config[i].0)
      ensures forall i | 0 <= i < |config| :: config[i].0 in bulbs && bulbs[config[i].0] == NewBulb(config[i].0, config[i].1)
      ensures this.groups == groups && notified == []
    {
      var bs: map<string, BulbState> := map[];
      var ns: seq<string> := [];
      var i := 0;
      while i < |config|
        invariant 0 <= i <= |config|
        invariant ns == seq(i, k requires 0 <= k < i => config[k].0)
        invariant forall n :: n in bs <==> n in ns
        invariant forall k | 0 <= k < i :: config[k].0 in bs && bs[config[k].0] == NewBulb(config[k].0, config[k].1)
      {
        bs := bs[config[i].0 := NewBulb(config[i].0, config[i].1)];
        ns := ns + [config[i].0];
        i := i + 1;
      }
      forall n | n in bs ensures BulbStates.Valid(bs[n]) && bs[n].name == n {
        var k :| 0 <= k < |config| && ns[k] == n;
      }
      bulbs, names, this.groups, notified := bs, ns, groups, [];
    }

    /** `set_power(name, on)` at `now`: sent at once; an unknown bulb
        fails without a send. */
    method SetPower(name: string, on: bool, now: real, ack: bool) returns (success: bool)
      requires Valid()
      modifies this
      ensures Valid() && names == old(names) && groups == old(groups)
      ensures success <==> name in old(bulbs) && ack
      ensures bulbs == if success then old(bulbs)[name := ApplyPower(old(bulbs)[name], on, now)] else old(bulbs)
      ensures notified == if success then old(notified) + [name] else old(notified)
    {
      if name !in bulbs {
        return false;
      }
      PowerFrameBytes(on);
      success := ToWire(PowerFrame(on)).Some? && ack;
      if success {
        bulbs := bulbs[name := ApplyPower(bulbs[name], on, now)];
        notified := notified + [name];
      }
    }

    /** `set_rgb(name, r, g, b)` at `now`: channels outside 0..255 make
        `bytes(...)` raise inside the send, which then fails. */
    method SetRgb(name: string, r: int, g: int, b: int, now: real, ack: bool) returns (success: bool)
      requires Valid()
      modifies this
      ensures Valid() && names == old(names) && groups == old(groups)
      ensures success <==> name in old(bulbs) && 0 <= r < 256 && 0 <= g < 256 && 0 <= b < 256 && ack
      ensures bulbs == if success then old(bulbs)[name := ApplyRgb(old(bulbs)[name], r, g, b, now)] else old(bulbs)
      ensures notified == if success then old(notified) + [name] else old(notified)
    {
      if name !in bulbs {
        return false;
      }
      RgbFrameBytes(r, g, b);
      success := ToWire(RgbFrame(r, g, b)).Some? && ack;
      if success {
        UpdatesPreserveValid(bulbs[name], now);
        bulbs := bulbs[name := ApplyRgb(bulbs[name], r, g, b, now)];
        notified := notified + [name];
      }
    }

    /** `set_hsv(name, h, s, v)`: `hsv_to_rgb` always gives bytes, so only
        an unknown bulb or the device can make it fail. */
    method SetHsv(name: string, h: real, s: real, v: real, now: real, ack: bool) returns (success: bool)
      requires Valid()
      modifies this
      ensures Valid()
      ensures names == old(names) && groups == old(groups)
      ensures success <==> name in old(bulbs) && ack
      ensures var c := HsvToRgb(h, s, v);
        bulbs == if success then old(bulbs)[name := ApplyRgb(old(bulbs)[name], c.r, c.g, c.b, now)] else old(bulbs)
      ensures notified == if success then old(notified) + [name] else old(notified)
    {
      var c := HsvToRgb(h, s, v);
      HsvToRgbChannels(h, s, v);
      success := SetRgb(name, c.r, c.g, c.b, now, ack);
    }

    /** `set_warm_white(name, brightness)` at `now`: only a percentage in
        0..100 gives a byte, so any other fails in the send. */
    method SetWarmWhite(name: string, brightness: int, now: real, ack: bool) returns (success: bool)
      requires Valid()
      modifies this
      ensures Valid() && names == old(names) && groups == old(groups)
      ensures success <==> name in old(bulbs) && 0 <= brightness <= 100 && ack
      ensures bulbs == if success then old(bulbs)[name := ApplyWarmWhite(old(bulbs)[name], WarmWhiteByte(brightness), now)]
                       else old(bulbs)
      ensures notified == if success then old(notified) + [name] else old(notified)
    {
      if name !in bulbs {
        return false;
      }
      var ww := WarmWhiteByte(brightness);
      WarmWhiteByteRange(brightness);
      WarmWhiteFrameBytes(ww);
      success := ToWire(WarmWhiteFrame(ww)).Some? && ack;
      if success {
        UpdatesPreserveValid(bulbs[name], now);
        bulbs := bulbs[name := ApplyWarmWhite(bulbs[name], ww, now)];
        notified := notified + [name];
      }
    }

    /** The target-collecting loop of `set_group_rgb`. */
    method CollectTargets(groupNames: seq<string>) returns (targets: set<string>)
      ensures targets == GroupTargets(bulbs.Keys, groups, groupNames)
    {
      targets := {};
      var i := 0;
      while i < |groupNames|
        invariant 0 <= i <= |groupNames|
        invariant targets == GroupTargets(bulbs.Keys, groups, groupNames[..i])
      {
        var target := groupNames[i];
        GroupTargetsSnoc(bulbs.Keys, groups, groupNames, i);
        if target in bulbs {
          targets := targets + {target};
        } else if target in groups {
          targets := targets + set m | m in groups[target];
        }
        i := i + 1;
      }
      assert groupNames[..i] == groupNames;
    }

    /** `set_group_rgb(group_names, r, g, b)` at `now`; `reachable` is the
        set of bulbs whose device acknowledges. The result maps every
        target to whether its `set_rgb` succeeded. */
    method SetGroupRgb(groupNames: seq<string>, r: int, g: int, b: int, now: real, reachable: set<string>)
      returns (targets: set<string>, results: map<string, bool>)
      requires Valid()
      modifies this
      ensures Valid() && names == old(names) && groups == old(groups)
      ensures targets == GroupTargets(old(bulbs).Keys, old(groups), groupNames)
      ensures results == map n | n in targets :: GroupSuccess(old(bulbs).Keys, reachable, r, g, b, n)
      ensures bulbs == Painted(old(bulbs), Succeeded(targets, old(bulbs).Keys, reachable, r, g, b), RgbAt(r, g, b, now))
      ensures LoggedOnce(old(notified), notified, Succeeded(targets, old(bulbs).Keys, reachable, r, g, b))
    {
      targets := CollectTargets(groupNames);
      results := SetRgbEach(targets, r, g, b, now, reachable);
    }

    /** The `gather` of `set_group_rgb`: one `set_rgb` per target. */
    method SetRgbEach(targets: set<string>, r: int, g: int, b: int, now: real, reachable: set<string>)
      returns (results: map<string, bool>)
      requires Valid()
      modifies this
      ensures Valid() && names == old(names) && groups == old(groups)
      ensures results == map n | n in targets :: GroupSuccess(old(bulbs).Keys, reachable, r, g, b, n)
      ensures bulbs == Painted(old(bulbs), Succeeded(targets, old(bulbs).Keys, reachable, r, g, b), RgbAt(r, g, b, now))
      ensures LoggedOnce(old(notified), notified, Succeeded(targets, old(bulbs).Keys, reachable, r, g, b))
    {
      results := map[];
      var remaining := targets;
      assert Succeeded(targets - remaining, bulbs.Keys, reachable, r, g, b) == {};
      assert bulbs == Painted(bulbs, {}, RgbAt(r, g, b, now));
      assert notified[|notified|..] == [];
      while remaining != {}
        invariant names == old(names) && groups == old(groups)
        invariant EachProgress(old(bulbs), old(notified), targets, remaining, r, g, b, now, reachable, results)
        decreases remaining
      {
        var name :| name in remaining;
        results := SetRgbOne(old(bulbs), old(notified), targets, remaining, name, r, g, b, now, reachable, results);
        remaining := remaining - {name};
      }
    }

    /** Where the `gather` stands with `remaining` still to send. */
    ghost predicate EachProgress(base: map<string, BulbState>, baseNotified: seq<string>,
                                 targets: set<string>, remaining: set<string>,
                                 r: int, g: int, b: int, now: real, reachable: set<string>,
                                 results: map<string, bool>)
      reads this
    {
      Valid() && bulbs.Keys == base.Keys && remaining <= targets &&
      results == (map n | n in targets - remaining :: GroupSuccess(base.Keys, reachable, r, g, b, n)) &&
      bulbs == Painted(base, Succeeded(targets - remaining, base.Keys, reachable, r, g, b), RgbAt(r, g, b, now)) &&
      LoggedOnce(baseNotified, notified, Succeeded(targets - remaining, base.Keys, reachable, r, g, b))
    }

    /** One `set_rgb` of the `gather`. */
    method SetRgbOne(ghost base: map<string, BulbState>, ghost baseNotified: seq<string>,
                     ghost targets: set<string>, ghost remaining: set<string>,
                     name: string, r: int, g: int, b: int, now: real, reachable: set<string>,
                     results: map<string, bool>)
      returns (results': map<string, bool>)
      requires name in remaining
      requires EachProgress(base, baseNotified, targets, remaining, r, g, b, now, reachable, results)
      modifies this
      ensures names == old(names) && groups == old(groups)
      ensures EachProgress(base, baseNotified, targets, remaining - {name}, r, g, b, now, reachable, results')
    {
      ghost var paint := RgbAt(r, g, b, now);
      ghost var hit := Succeeded(targets - remaining, base.Keys, reachable, r, g, b);
      ghost var sent := targets - (remaining - {name});
      assert sent == (targets - remaining) + {name};
      var success := SetRgb(name, r, g, b, now, name in reachable);
      assert success == GroupSuccess(base.Keys, reachable, r, g, b, name);
      SucceededAdd(targets - remaining, name, base.Keys, reachable, r, g, b);
      if success {
        assert bulbs == Painted(base, hit + {name}, paint) by {
          assert paint(base[name]) == ApplyRgb(base[name], r, g, b, now);
          PaintedStep(base, hit, paint, name);
        }
        LoggedOnceStep(baseNotified, old(notified), hit, name);
      }
      results' := results[name := success];
      OutcomeAdd(targets - remaining, name, base.Keys, reachable, r, g, b, results);
    }

    /** `set_group_hsv(group_names, h, s, v)`: the group command with the
        colour `hsv_to_rgb` gives. */
    method SetGroupHsv(groupNames: seq<string>, h: real, s: real, v: real, now: real, reachable: set<string>)
      returns (targets: set<string>, results: map<string, bool>)
      requires Valid()
      modifies this
      ensures Valid()
      ensures targets == GroupTargets(old(bulbs).Keys, old(groups), groupNames)
      ensures names == old(names) && groups == old(groups)
      ensures results == map n | n in targets :: n in old(bulbs) && n in reachable
      ensures var c := HsvToRgb(h, s, v);
        bulbs == Painted(old(bulbs), Succeeded(targets, old(bulbs).Keys, reachable, c.r, c.g, c.b), RgbAt(c.r, c.g, c.b, now))
      ensures var c := HsvToRgb(h, s, v);
        LoggedOnce(old(notified), notified, Succeeded(targets, old(bulbs).Keys, reachable, c.r, c.g, c.b))
    {
      var c := HsvToRgb(h, s, v);
      HsvToRgbChannels(h, s, v);
      targets, results := SetGroupRgb(groupNames, c.r, c.g, c.b, now, reachable);
    }

    /** `refresh_bulb(name)` at `now`; `status` is what `get_status`
        produced (`None` when it raised or returned a non-dict). */
    method RefreshBulb(name: string, now: real, status: Option<StatusDict>) returns (online: bool)
      requires Valid()
      requires status.Some? ==> ByteChannels(status.value)
      modifies this
      ensures Valid() && names == old(names) && groups == old(groups)
      ensures name !in old(bulbs) ==> !online && bulbs == old(bulbs) && notified == old(notified)
      ensures name in old(bulbs) && RefreshGuard(old(bulbs)[name], now) ==>
                online == old(bulbs)[name].online && bulbs == old(bulbs) && notified == old(notified)
      ensures name in old(bulbs) && !RefreshGuard(old(bulbs)[name], now) ==>
                bulbs == old(bulbs)[name := Refresh(old(bulbs)[name], status, now)] &&
                online == bulbs[name].online && notified == old(notified) + [name]
    {
      if name !in bulbs {
        return false;
      }
      var bulb := bulbs[name];
      if RefreshGuard(bulb, now) {
        return bulb.online;
      }
      RefreshPreservesValid(bulb, status, now);
      bulbs := bulbs[name := Refresh(bulb, status, now)];
      notified := notified + [name];
      online := bulbs[name].online;
    }

    /** `_poll_single_bulb(name)`. */
    method PollSingle(name: string, now: real, status: Option<StatusDict>) returns (success: bool)
      requires Valid() && name in bulbs
      requires status.Some? ==> ByteChannels(status.value)
      modifies this
      ensures Valid() && names == old(names) && groups == old(groups)
      ensures bulbs == old(bulbs)[name := BackendBulbManager.PollOutcome(old(bulbs)[name], now, status)]
      ensures notified == if ShouldSkip(old(bulbs)[name], now) then old(notified) else old(notified) + [name]
      ensures ShouldSkip(old(bulbs)[name], now) ==> success
      ensures !ShouldSkip(old(bulbs)[name], now) ==> success == Refresh(old(bulbs)[name], status, now).online
    {
      var bulb := bulbs[name];
      if ShouldSkip(bulb, now) {
        return true;
      }
      RefreshGuardWithinSkip(bulb, now);
      ghost var refreshed := Refresh(bulb, status, now);
      success := RefreshBulb(name, now, status);
      assert bulbs == old(bulbs)[name := refreshed];
      UpdateBackoff(name, success);
      assert BackendBulbManager.PollOutcome(bulb, now, status) == UpdatePollInterval(refreshed, success);
      BackendBulbManager.UpdateTwice(old(bulbs), name, refreshed, UpdatePollInterval(refreshed, success));
    }

    /** `_update_poll_interval(bulb, success)` on the record of `name`. */
    method UpdateBackoff(name: string, success: bool)
      requires Valid() && name in bulbs
      modifies this
      ensures Valid() && names == old(names) && groups == old(groups) && notified == old(notified)
      ensures bulbs == old(bulbs)[name := UpdatePollInterval(old(bulbs)[name], success)]
    {
      UpdatesPreserveValid(bulbs[name], 0.0);
      bulbs := bulbs[name := UpdatePollInterval(bulbs[name], success)];
    }
  }
}
