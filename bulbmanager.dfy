// The current bulb manager of backend/bulb_manager.py: target resolution,
// the per-bulb command throttle, the setters that update the cached record
// after a successful send, refresh, and the polling schedule. Locks,
// asyncio and the subscriber callbacks are gone: commands run one after
// another, the device's answer is an input, time is a parameter, and a
// notification is an entry appended to a log.

module BackendBulbManager {
  import opened Common
  import opened Targets
  import opened Protocol
  import opened ColorMath
  import opened BulbStates

  /** `MIN_COMMAND_INTERVAL_SECONDS`. */
  const MinCommandInterval: real := 0.12
  /** `GROUP_COMMAND_SPACING_SECONDS`. */
  const GroupCommandSpacing: real := 0.02

  /** How long a command takes on the wire. */
  type Duration = x: real | x >= 0.0

  // ---------------------------------------------------------------------
  // Throttle and polling

  /** The start time of a throttled command: immediately when at least
      0.12 s have passed since the last one, else exactly 0.12 s after it. */
  function SendTime(now: real, last: real): (t: real)
    ensures t >= now && t >= last + MinCommandInterval
    ensures t == now || t == last + MinCommandInterval
  {
    var delay := MinCommandInterval - (now - last);
    if delay > 0.0 then now + delay else now
  }

  /** One poll of `_poll_single_bulb` on a record at `now`, given what
      `get_status` returns: skipped when commanded within 10 s, otherwise a
      refresh followed by the backoff update. */
  function PollOutcome(bulb: BulbState, now: real, status: Option<StatusDict>): BulbState
  {
    if ShouldSkip(bulb, now) then bulb
    else
      var c := Refresh(bulb, status, now);
      UpdatePollInterval(c, c.online)
  }

  /** The names `_background_polling_loop` polls, in configuration order. */
  function DueNames(bulbs: map<string, BulbState>, names: seq<string>, now: real): (due: seq<string>)
    ensures forall x :: x in due <==> x in names && x in bulbs && PollDue(bulbs[x], now)
    ensures NoDup(names) ==> NoDup(due)
  {
    if names == [] then []
    else
      var init := names[..|names| - 1];
      var last := names[|names| - 1];
      assert names == init + [last];
      var d := DueNames(bulbs, init, now);
      if last in bulbs && PollDue(bulbs[last], now) then d + [last] else d
  }

  /** A record `get_status` may produce: byte channels where present. */
  function StatusFor(statuses: map<string, Option<StatusDict>>, name: string): Option<StatusDict>
  {
    if name in statuses then statuses[name] else None
  }

  predicate ByteStatuses(statuses: map<string, Option<StatusDict>>)
  {
    forall n | n in statuses :: statuses[n].Some? ==> ByteChannels(statuses[n].value)
  }

  /** A bulb polled in a round ends valid, and a bulb that was not skipped
      went through one refresh: the 5 s guard inside `refresh_bulb` never
      fires for it. */
  lemma PollOutcomeFacts(bulb: BulbState, now: real, status: Option<StatusDict>)
    requires BulbStates.Valid(bulb)
    requires status.Some? ==> ByteChannels(status.value)
    ensures BulbStates.Valid(PollOutcome(bulb, now, status))
    ensures PollOutcome(bulb, now, status).name == bulb.name
    ensures !ShouldSkip(bulb, now) ==>
              !RefreshGuard(bulb, now) &&
              PollOutcome(bulb, now, status).consecutiveFailures ==
                (if Refresh(bulb, status, now).online then 0 else bulb.consecutiveFailures + 1)
  {
    RefreshGuardWithinSkip(bulb, now);
    if !ShouldSkip(bulb, now) {
      RefreshPreservesValid(bulb, status, now);
    }
  }

  /** The manager's invariant: the order lists each bulb once, every bulb
      has a transport time, and every record is valid and filed under its
      own name. */
  ghost predicate ValidState(bulbs: map<string, BulbState>, names: seq<string>, lastTransport: map<string, real>)
  {
    NoDup(names) &&
    (forall n :: n in bulbs <==> n in names) &&
    lastTransport.Keys == bulbs.Keys &&
    forall n | n in bulbs :: BulbStates.Valid(bulbs[n]) && bulbs[n].name == n
  }

  /** Replacing one record by a valid record with the same name keeps the
      invariant, whatever the new transport time of an existing bulb. */
  lemma ReplaceKeepsValid(bulbs: map<string, BulbState>, names: seq<string>, lastTransport: map<string, real>,
                          name: string, c: BulbState, t: real)
    requires ValidState(bulbs, names, lastTransport) && name in bulbs
    requires BulbStates.Valid(c) && c.name == name
    ensures ValidState(bulbs[name := c], names, lastTransport)
    ensures ValidState(bulbs, names, lastTransport[name := t])
  {
  }

  /** After polling the bulbs in `done`, in turn: those bulbs hold their poll
      outcomes, every other bulb its old record. */
  ghost predicate PolledSoFar(before: map<string, BulbState>, after: map<string, BulbState>, done: seq<string>,
                              now: real, statuses: map<string, Option<StatusDict>>)
  {
    after.Keys == before.Keys &&
    forall n | n in after ::
      after[n] == if n in done then PollOutcome(before[n], now, StatusFor(statuses, n)) else before[n]
  }

  /** Polling one more bulb, not polled before, extends `PolledSoFar`. */
  lemma PolledStep(before: map<string, BulbState>, mid: map<string, BulbState>, done: seq<string>, name: string,
                   now: real, statuses: map<string, Option<StatusDict>>)
    requires PolledSoFar(before, mid, done, now, statuses) && name in mid && name !in done
    ensures PolledSoFar(before, mid[name := PollOutcome(mid[name], now, StatusFor(statuses, name))],
                        done + [name], now, statuses)
  {
  }

  /** The bulbs among `due`, in order, that a poll at `now` does not skip:
      each of them goes through `refresh_bulb` and notifies subscribers. */
  function Unskipped(bulbs: map<string, BulbState>, due: seq<string>, now: real): (polled: seq<string>)
    ensures forall n :: n in polled <==> n in due && n in bulbs && !ShouldSkip(bulbs[n], now)
  {
    if due == [] then []
    else
      var k := |due| - 1;
      assert due == due[..k] + [due[k]];
      Unskipped(bulbs, due[..k], now) + (if due[k] in bulbs && !ShouldSkip(bulbs[due[k]], now) then [due[k]] else [])
  }

  lemma UnskippedSnoc(bulbs: map<string, BulbState>, due: seq<string>, i: nat, now: real)
    requires i < |due|
    ensures Unskipped(bulbs, due[..i + 1], now) ==
            Unskipped(bulbs, due[..i], now) +
              (if due[i] in bulbs && !ShouldSkip(bulbs[due[i]], now) then [due[i]] else [])
  {
    assert due[..i + 1][..i] == due[..i];
  }

  /** Polling one more bulb extends the notification log exactly when the
      poll was not skipped. */
  lemma UnskippedLogStep(log0: seq<string>, logMid: seq<string>, logAfter: seq<string>,
                         bulbs: map<string, BulbState>, due: seq<string>, i: nat, now: real)
    requires i < |due| && due[i] in bulbs
    requires logMid == log0 + Unskipped(bulbs, due[..i], now)
    requires logAfter == if ShouldSkip(bulbs[due[i]], now) then logMid else logMid + [due[i]]
    ensures logAfter == log0 + Unskipped(bulbs, due[..i + 1], now)
  {
    UnskippedSnoc(bulbs, due, i, now);
  }

  /** The next element of a sequence without duplicates is not among the
      ones before it, and taking it extends the prefix. */
  lemma TakeNext<T>(s: seq<T>, i: nat)
    requires NoDup(s) && i < |s|
    ensures s[i] !in s[..i] && s[..i + 1] == s[..i] + [s[i]]
  {
  }

  /** One pass of the outer loop of `resolve_targets`: a bulb name is
      appended unless seen, a group's configured members are appended in
      turn, anything else is skipped. */
  method AddTarget(known: set<string>, groups: map<string, seq<string>>, target: string, ghost before: seq<string>,
                   resolved0: seq<string>, seen0: set<string>) returns (resolved: seq<string>, seen: set<string>)
    requires resolved0 == Dedup(before) && forall x :: x in seen0 <==> x in before
    ensures resolved == Dedup(before + Contribution(known, groups, target))
    ensures forall x :: x in seen <==> x in before + Contribution(known, groups, target)
  {
    resolved, seen := resolved0, seen0;
    if target in known {
      DedupStep(before, target, resolved, seen);
      if target !in seen {
        seen := seen + {target};
        resolved := resolved + [target];
      }
    } else if target in groups {
      resolved, seen := AddMembers(known, groups[target], before, resolved, seen);
    } else {
      assert before + Contribution(known, groups, target) == before;
    }
  }

  /** The inner loop of `resolve_targets` over a group's members: each
      configured member not yet seen is appended and marked seen. */
  method AddMembers(known: set<string>, members: seq<string>, ghost before: seq<string>,
                    resolved0: seq<string>, seen0: set<string>) returns (resolved: seq<string>, seen: set<string>)
    requires resolved0 == Dedup(before) && forall x :: x in seen0 <==> x in before
    ensures resolved == Dedup(before + Configured(known, members))
    ensures forall x :: x in seen <==> x in before + Configured(known, members)
  {
    resolved, seen := resolved0, seen0;
    var j := 0;
    assert before + Configured(known, members[..0]) == before;
    while j < |members|
      invariant 0 <= j <= |members|
      invariant resolved == Dedup(before + Configured(known, members[..j]))
      invariant forall x :: x in seen <==> x in before + Configured(known, members[..j])
    {
      var m := members[j];
      ConfiguredSnoc(known, members, j);
      ghost var sofar := before + Configured(known, members[..j]);
      if m in known {
        assert before + Configured(known, members[..j + 1]) == sofar + [m];
        DedupStep(sofar, m, resolved, seen);
        if m !in seen {
          seen := seen + {m};
          resolved := resolved + [m];
        }
      } else {
        assert before + Configured(known, members[..j + 1]) == sofar;
      }
      j := j + 1;
    }
    assert members[..j] == members;
  }

  /** Updating a key twice keeps the second value only. */
  lemma UpdateTwice<K, V>(m: map<K, V>, k: K, a: V, b: V)
    ensures m[k := a][k := b] == m[k := b]
  {
  }

  /** What `set_group_rgb` reports after sending to each of `done`: a
      bulb's command succeeded exactly when its device acknowledged and the
      channels were bytes. */
  function Outcomes(done: seq<string>, reachable: set<string>, bytes: bool): map<string, bool>
  {
    map n | n in done :: n in reachable && bytes
  }

  /** The targets among `done` whose `set_rgb` succeeded, in the order they
      were sent: the bulbs `set_group_rgb` notifies subscribers about. */
  function Acknowledged(done: seq<string>, reachable: set<string>, bytes: bool): (acked: seq<string>)
    ensures forall n :: n in acked <==> n in done && n in reachable && bytes
  {
    if done == [] then []
    else
      var k := |done| - 1;
      assert done == done[..k] + [done[k]];
      Acknowledged(done[..k], reachable, bytes) + (if done[k] in reachable && bytes then [done[k]] else [])
  }

  lemma AcknowledgedSnoc(targets: seq<string>, index: nat, reachable: set<string>, bytes: bool)
    requires index < |targets|
    ensures Acknowledged(targets[..index + 1], reachable, bytes) ==
            Acknowledged(targets[..index], reachable, bytes) +
              (if targets[index] in reachable && bytes then [targets[index]] else [])
  {
    assert targets[..index + 1][..index] == targets[..index];
  }

  /** The transport times after a command ran for each of `done` in turn:
      the i-th bulb's time is the end of its own command, `starts[i]` plus
      `elapsed`, and every other bulb keeps its time from `before`. */
  ghost predicate Restamped(before: map<string, real>, after: map<string, real>, done: seq<string>,
                            starts: seq<real>, elapsed: real)
  {
    |starts| == |done| &&
    after.Keys == before.Keys &&
    (forall i | 0 <= i < |done| :: done[i] in after && after[done[i]] == starts[i] + elapsed) &&
    (forall n | n in before && n !in done :: after[n] == before[n])
  }

  lemma RestampedKeeps(before: map<string, real>, after: map<string, real>, done: seq<string>,
                        starts: seq<real>, elapsed: real, n: string)
    requires Restamped(before, after, done, starts, elapsed) && n in after && n !in done
    ensures n in before && after[n] == before[n]
  {
  }

  /** What `set_group_rgb` reports, spelt out: one entry per target, true
      exactly when the device acknowledged and the channels were bytes. */
  lemma OutcomesFacts(done: seq<string>, reachable: set<string>, bytes: bool, results: map<string, bool>)
    requires results == Outcomes(done, reachable, bytes)
    ensures results.Keys == set n | n in done
    ensures forall n | n in results :: results[n] == (n in reachable && bytes)
  {
  }

  lemma RestampedSnoc(before: map<string, real>, mid: map<string, real>, targets: seq<string>, index: nat,
                      starts: seq<real>, elapsed: real, sentAt: real, finishAt: real)
    requires index < |targets| && targets[index] !in targets[..index] && targets[index] in mid
    requires Restamped(before, mid, targets[..index], starts, elapsed)
    requires finishAt == sentAt + elapsed
    ensures Restamped(before, mid[targets[index] := finishAt], targets[..index + 1], starts + [sentAt], elapsed)
  {
    var name := targets[index];
    var after := mid[name := finishAt];
    assert targets[..index + 1] == targets[..index] + [name];
    forall i | 0 <= i < index + 1
      ensures targets[..index + 1][i] in after && after[targets[..index + 1][i]] == (starts + [sentAt])[i] + elapsed
    {
      if i < index {
        assert targets[..index + 1][i] == targets[..index][i];
      }
    }
  }

  lemma OutcomesSnoc(targets: seq<string>, index: nat, reachable: set<string>, bytes: bool, success: bool)
    requires index < |targets|
    requires success == (targets[index] in reachable && bytes)
    ensures Outcomes(targets[..index + 1], reachable, bytes) ==
            Outcomes(targets[..index], reachable, bytes)[targets[index] := success]
  {
    assert targets[..index + 1] == targets[..index] + [targets[index]];
    assert forall n :: n in targets[..index + 1] <==> n in targets[..index] || n == targets[index];
  }

  /** The timeline of `set_group_rgb` so far: the commands went out in
      order, at least 0.02 s after the previous one finished, none before
      `now`, and `finish` is when the last one finished (`now` if none was
      sent). */
  ghost predicate OnSchedule(starts: seq<real>, now: real, elapsed: real, finish: real)
  {
    Spaced(starts, elapsed + GroupCommandSpacing) &&
    (forall i | 0 <= i < |starts| :: starts[i] >= now) &&
    finish == if starts == [] then now else starts[|starts| - 1] + elapsed
  }

  /** Each command of `set_group_rgb` so far went through the per-bulb
      throttle: the i-th one was due at `now` (the first) or 0.02 s after
      the previous one finished, and it started at `SendTime` of that and
      the bulb's transport time before the group command. */
  ghost predicate Throttled(baseTransport: map<string, real>, targets: seq<string>, starts: seq<real>,
                            now: real, elapsed: real)
  {
    |starts| <= |targets| &&
    forall i | 0 <= i < |starts| ::
      targets[i] in baseTransport &&
      starts[i] == SendTime(if i == 0 then now else starts[i - 1] + elapsed + GroupCommandSpacing, baseTransport[targets[i]])
  }

  lemma ThrottledSnoc(baseTransport: map<string, real>, targets: seq<string>, starts: seq<real>,
                      now: real, elapsed: real, finish: real, sentAt: real)
    requires Throttled(baseTransport, targets, starts, now, elapsed) && |starts| < |targets|
    requires targets[|starts|] in baseTransport
    requires finish == if starts == [] then now else starts[|starts| - 1] + elapsed
    requires sentAt == SendTime(if starts == [] then now else finish + GroupCommandSpacing, baseTransport[targets[|starts|]])
    ensures Throttled(baseTransport, targets, starts + [sentAt], now, elapsed)
  {
  }

  /** Spelt out per command: each start is `SendTime` of its due time and
      the bulb's earlier transport time, so at least 0.12 s after it. */
  lemma ThrottledStarts(baseTransport: map<string, real>, targets: seq<string>, starts: seq<real>,
                        now: real, elapsed: real)
    requires Throttled(baseTransport, targets, starts, now, elapsed) && |starts| == |targets|
    ensures forall i | 0 <= i < |targets| ::
              targets[i] in baseTransport &&
              starts[i] == SendTime(if i == 0 then now else starts[i - 1] + elapsed + GroupCommandSpacing,
                                    baseTransport[targets[i]])
    ensures forall i | 0 <= i < |targets| ::
              targets[i] in baseTransport && starts[i] >= baseTransport[targets[i]] + MinCommandInterval
  {
    forall i | 0 <= i < |targets|
      ensures targets[i] in baseTransport && starts[i] >= baseTransport[targets[i]] + MinCommandInterval
    {
      assert targets[i] in baseTransport &&
             starts[i] == SendTime(if i == 0 then now else starts[i - 1] + elapsed + GroupCommandSpacing,
                                   baseTransport[targets[i]]);
    }
  }

  lemma ScheduleStep(starts: seq<real>, now: real, elapsed: real, finish: real, sentAt: real)
    requires elapsed >= 0.0
    requires OnSchedule(starts, now, elapsed, finish)
    requires sentAt >= if starts == [] then now else finish + GroupCommandSpacing
    ensures OnSchedule(starts + [sentAt], now, elapsed, sentAt + elapsed)
  {
    SpacedSnoc(starts, sentAt, elapsed + GroupCommandSpacing);
  }

  lemma ScheduleNext(starts: seq<real>, now: real, elapsed: real, finish: real, done: real)
    requires elapsed >= 0.0
    requires OnSchedule(starts, now, elapsed, finish)
    requires done - elapsed >= if starts == [] then now else finish + GroupCommandSpacing
    ensures OnSchedule(starts + [done - elapsed], now, elapsed, done)
  {
    ScheduleStep(starts, now, elapsed, finish, done - elapsed);
  }

  /** Consecutive entries of `s` are at least `gap` apart. */
  ghost predicate Spaced(s: seq<real>, gap: real)
  {
    forall i | 0 <= i < |s| - 1 :: s[i + 1] >= s[i] + gap
  }

  lemma SpacedSnoc(s: seq<real>, x: real, gap: real)
    requires Spaced(s, gap)
    requires s != [] ==> x >= s[|s| - 1] + gap
    ensures Spaced(s + [x], gap)
  {
  }

  /** The bulb records after a command ran for each of `done` in turn: the
      i-th was sent at `starts[i]`, finished `elapsed` later, and when
      `results` says it succeeded it turned the record `c` into
      `apply(c, starts[i] + elapsed)`. */
  ghost function Recolored(before: map<string, BulbState>, done: seq<string>, results: map<string, bool>,
                           starts: seq<real>, elapsed: real, apply: (BulbState, real) -> BulbState)
    : (after: map<string, BulbState>)
    requires |starts| == |done|
    ensures after.Keys == before.Keys
    decreases |done|
  {
    if done == [] then before
    else
      var k := |done| - 1;
      var prev := Recolored(before, done[..k], results, starts[..k], elapsed, apply);
      var x := done[k];
      if x in results && results[x] && x in prev then prev[x := apply(prev[x], starts[k] + elapsed)] else prev
  }

  /** What `set_rgb(r, g, b)` does to a record when it succeeds. */
  function RgbPainter(r: int, g: int, b: int): (BulbState, real) -> BulbState
  {
    (c: BulbState, stamp: real) => ApplyRgb(c, r, g, b, stamp)
  }

  /** The outcome of a command to a bulb that was not among `done` has no
      bearing on what `done` did. */
  lemma {:induction false} RecoloredFrame(before: map<string, BulbState>, done: seq<string>, results: map<string, bool>,
                                          starts: seq<real>, elapsed: real, apply: (BulbState, real) -> BulbState,
                                          x: string, o: bool)
    requires |starts| == |done|
    requires x !in done
    ensures Recolored(before, done, results[x := o], starts, elapsed, apply) ==
            Recolored(before, done, results, starts, elapsed, apply)
    decreases |done|
  {
    if done != [] {
      var k := |done| - 1;
      assert x !in done[..k] by {
        forall i | 0 <= i < k ensures done[..k][i] != x {
          assert done[..k][i] == done[i];
        }
      }
      RecoloredFrame(before, done[..k], results, starts[..k], elapsed, apply, x, o);
    }
  }

  /** One more command, to a bulb not yet sent to, extends the run by its
      own effect. */
  lemma RecoloredSnoc(before: map<string, BulbState>, targets: seq<string>, index: nat, results: map<string, bool>,
                      starts: seq<real>, elapsed: real, apply: (BulbState, real) -> BulbState,
                      o: bool, sentAt: real, finishAt: real)
    requires index < |targets| && |starts| == index
    requires targets[index] !in targets[..index]
    requires sentAt == finishAt - elapsed
    ensures var prev := Recolored(before, targets[..index], results, starts, elapsed, apply);
      var x := targets[index];
      Recolored(before, targets[..index + 1], results[x := o], starts + [sentAt], elapsed, apply) ==
        if o && x in prev then prev[x := apply(prev[x], finishAt)] else prev
  {
    assert targets[..index + 1][..index] == targets[..index];
    assert (starts + [sentAt])[..index] == starts;
    RecoloredFrame(before, targets[..index], results, starts, elapsed, apply, targets[index], o);
  }

  /** A bulb that was not sent to keeps its record. */
  lemma {:induction false} RecoloredUntouched(before: map<string, BulbState>, done: seq<string>,
                                              results: map<string, bool>, starts: seq<real>, elapsed: real,
                                              apply: (BulbState, real) -> BulbState, n: string)
    requires |starts| == |done|
    requires n in before && n !in done
    ensures Recolored(before, done, results, starts, elapsed, apply)[n] == before[n]
    decreases |done|
  {
    if done != [] {
      var k := |done| - 1;
      assert done == done[..k] + [done[k]];
      RecoloredUntouched(before, done[..k], results, starts[..k], elapsed, apply, n);
    }
  }

  /** Sending to distinct bulbs one after another: every bulb whose command
      succeeded holds that command's effect, stamped with the end of its own
      command, and every other bulb sent to keeps its record. */
  lemma {:induction false} RecoloredPointwise(before: map<string, BulbState>, done: seq<string>,
                                              results: map<string, bool>, starts: seq<real>, elapsed: real,
                                              apply: (BulbState, real) -> BulbState)
    requires |starts| == |done|
    requires NoDup(done)
    ensures var after := Recolored(before, done, results, starts, elapsed, apply);
      forall i | 0 <= i < |done| && done[i] in before ::
        after[done[i]] == if done[i] in results && results[done[i]] then apply(before[done[i]], starts[i] + elapsed)
                          else before[done[i]]
    decreases |done|
  {
    if done != [] {
      var k := |done| - 1;
      var prev := Recolored(before, done[..k], results, starts[..k], elapsed, apply);
      var after := Recolored(before, done, results, starts, elapsed, apply);
      assert NoDup(done[..k]) by {
        forall i, j | 0 <= i < j < k ensures done[..k][i] != done[..k][j] {
          assert done[..k][i] == done[i] && done[..k][j] == done[j];
        }
      }
      RecoloredPointwise(before, done[..k], results, starts[..k], elapsed, apply);
      assert done[k] !in done[..k] by {
        forall i | 0 <= i < k ensures done[..k][i] != done[k] {
          assert done[..k][i] == done[i];
        }
      }
      if done[k] in before {
        RecoloredUntouched(before, done[..k], results, starts[..k], elapsed, apply, done[k]);
      }
      forall i | 0 <= i < k && done[i] in before
        ensures after[done[i]] == prev[done[i]]
      {
        assert done[..k][i] == done[i] && starts[..k][i] == starts[i];
      }
    }
  }

  /** `set_group_rgb` over distinct known bulbs: each one whose command
      succeeded now shows exactly the requested colour, with an HSV that
      converts back to it, stamped with the end of its own command; the
      others keep their records. */
  lemma GroupRgbEffect(before: map<string, BulbState>, done: seq<string>, results: map<string, bool>,
                       starts: seq<real>, elapsed: real, r: byte, g: byte, b: byte)
    requires |starts| == |done|
    requires NoDup(done) && forall n | n in done :: n in before
    ensures var after := Recolored(before, done, results, starts, elapsed, RgbPainter(r, g, b));
      after.Keys == before.Keys &&
      (forall i | 0 <= i < |done| && done[i] in results && results[done[i]] ::
         after[done[i]].r == r && after[done[i]].g == g && after[done[i]].b == b &&
         after[done[i]].on && after[done[i]].warmWhite == 0 &&
         HsvToRgb(after[done[i]].h, after[done[i]].s, after[done[i]].v) == Rgb(r, g, b) &&
         after[done[i]].lastCommandTime == Some(starts[i] + elapsed)) &&
      (forall i | 0 <= i < |done| && !(done[i] in results && results[done[i]]) ::
         after[done[i]] == before[done[i]]) &&
      (forall n | n in before && n !in done :: after[n] == before[n])
  {
    RecoloredPointwise(before, done, results, starts, elapsed, RgbPainter(r, g, b));
    forall n | n in before && n !in done
      ensures Recolored(before, done, results, starts, elapsed, RgbPainter(r, g, b))[n] == before[n]
    {
      RecoloredUntouched(before, done, results, starts, elapsed, RgbPainter(r, g, b), n);
    }
    HsvRoundTrip(r, g, b);
    forall i | 0 <= i < |done| && done[i] in results && results[done[i]]
      ensures var c := ApplyRgb(before[done[i]], r, g, b, starts[i] + elapsed);
        c.r == r && c.g == g && c.b == b && c.on && c.warmWhite == 0 &&
        HsvToRgb(c.h, c.s, c.v) == Rgb(r, g, b) && c.lastCommandTime == Some(starts[i] + elapsed)
    {
      ApplyRgbEffect(before[done[i]], r, g, b, starts[i] + elapsed);
    }
  }

  /** The state of the `set_group_rgb` loop after sending to the first
      `index` of `targets`: the records are recoloured where the command
      succeeded, the log gained exactly the acknowledged bulbs in order,
      each bulb sent to has the end of its command as its transport time,
      the reported outcomes are the acknowledgements, and the commands are
      on schedule. */
  ghost predicate GroupRun(base: map<string, BulbState>, baseTransport: map<string, real>, baseNotified: seq<string>,
                           bulbs: map<string, BulbState>, lastTransport: map<string, real>, notified: seq<string>,
                           targets: seq<string>, index: nat,
                           r: int, g: int, b: int, now: real, reachable: set<string>, elapsed: real,
                           results: map<string, bool>, starts: seq<real>, finish: real)
  {
    index <= |targets| && |starts| == index &&
    bulbs == Recolored(base, targets[..index], results, starts, elapsed, RgbPainter(r, g, b)) &&
    notified == baseNotified + Acknowledged(targets[..index], reachable, 0 <= r < 256 && 0 <= g < 256 && 0 <= b < 256) &&
    Restamped(baseTransport, lastTransport, targets[..index], starts, elapsed) &&
    results == Outcomes(targets[..index], reachable, 0 <= r < 256 && 0 <= g < 256 && 0 <= b < 256) &&
    OnSchedule(starts, now, elapsed, finish) &&
    Throttled(baseTransport, targets, starts, now, elapsed)
  }

  /** One `set_rgb` to the next target, sent no earlier than the schedule
      allows, advances the loop state by that target. */
  lemma GroupRunStep(base: map<string, BulbState>, baseTransport: map<string, real>, baseNotified: seq<string>,
                     targets: seq<string>, index: nat,
                     r: int, g: int, b: int, now: real, reachable: set<string>, elapsed: real,
                     results: map<string, bool>, starts: seq<real>, finish: real,
                     bulbs: map<string, BulbState>, lastTransport: map<string, real>, notified: seq<string>,
                     success: bool, done: real,
                     bulbs': map<string, BulbState>, lastTransport': map<string, real>, notified': seq<string>,
                     results': map<string, bool>, starts': seq<real>)
    requires index < |targets| && elapsed >= 0.0
    requires NoDup(targets) && targets[index] in bulbs && targets[index] in lastTransport
    requires GroupRun(base, baseTransport, baseNotified, bulbs, lastTransport, notified, targets, index,
                      r, g, b, now, reachable, elapsed, results, starts, finish)
    requires success == (targets[index] in reachable && 0 <= r < 256 && 0 <= g < 256 && 0 <= b < 256)
    requires done - elapsed == SendTime(if index == 0 then now else finish + GroupCommandSpacing,
                                        lastTransport[targets[index]])
    requires bulbs' == if success then bulbs[targets[index] := ApplyRgb(bulbs[targets[index]], r, g, b, done)] else bulbs
    requires lastTransport' == lastTransport[targets[index] := done]
    requires notified' == if success then notified + [targets[index]] else notified
    requires results' == results[targets[index] := success] && starts' == starts + [done - elapsed]
    ensures GroupRun(base, baseTransport, baseNotified, bulbs', lastTransport', notified', targets, index + 1,
                     r, g, b, now, reachable, elapsed, results', starts', done)
  {
    assert targets[index] !in targets[..index] by {
      forall i | 0 <= i < index ensures targets[..index][i] != targets[index] {
        assert targets[..index][i] == targets[i];
      }
    }
    GroupRunStepRecords(base, targets, index, r, g, b, reachable, elapsed, results, starts, bulbs,
                        success, done, bulbs', results');
    GroupRunStepLog(baseNotified, targets, index, 0 <= r < 256 && 0 <= g < 256 && 0 <= b < 256,
                    reachable, notified, success, notified');
    GroupRunStepThrottle(baseTransport, targets, index, now, elapsed, starts, finish, lastTransport, done);
    GroupRunStepTimes(baseTransport, targets, index, now, elapsed, starts, finish, lastTransport, done);
  }

  /** The records and the reported outcomes after one more `set_rgb`. */
  lemma GroupRunStepRecords(base: map<string, BulbState>, targets: seq<string>, index: nat,
                            r: int, g: int, b: int, reachable: set<string>, elapsed: real,
                            results: map<string, bool>, starts: seq<real>, bulbs: map<string, BulbState>,
                            success: bool, done: real, bulbs': map<string, BulbState>, results': map<string, bool>)
    requires index < |targets| && |starts| == index && targets[index] !in targets[..index] && targets[index] in bulbs
    requires bulbs == Recolored(base, targets[..index], results, starts, elapsed, RgbPainter(r, g, b))
    requires results == Outcomes(targets[..index], reachable, 0 <= r < 256 && 0 <= g < 256 && 0 <= b < 256)
    requires success == (targets[index] in reachable && 0 <= r < 256 && 0 <= g < 256 && 0 <= b < 256)
    requires bulbs' == if success then bulbs[targets[index] := ApplyRgb(bulbs[targets[index]], r, g, b, done)] else bulbs
    requires results' == results[targets[index] := success]
    ensures bulbs' == Recolored(base, targets[..index + 1], results', starts + [done - elapsed], elapsed, RgbPainter(r, g, b))
    ensures results' == Outcomes(targets[..index + 1], reachable, 0 <= r < 256 && 0 <= g < 256 && 0 <= b < 256)
  {
    var name := targets[index];
    assert RgbPainter(r, g, b)(bulbs[name], done) == ApplyRgb(bulbs[name], r, g, b, done);
    RecoloredSnoc(base, targets, index, results, starts, elapsed, RgbPainter(r, g, b), success, done - elapsed, done);
    OutcomesSnoc(targets, index, reachable, 0 <= r < 256 && 0 <= g < 256 && 0 <= b < 256, success);
  }

  /** The notification log after one more `set_rgb`. */
  lemma GroupRunStepLog(baseNotified: seq<string>, targets: seq<string>, index: nat, bytes: bool,
                        reachable: set<string>, notified: seq<string>, success: bool, notified': seq<string>)
    requires index < |targets|
    requires notified == baseNotified + Acknowledged(targets[..index], reachable, bytes)
    requires success == (targets[index] in reachable && bytes)
    requires notified' == if success then notified + [targets[index]] else notified
    ensures notified' == baseNotified + Acknowledged(targets[..index + 1], reachable, bytes)
  {
    AcknowledgedSnoc(targets, index, reachable, bytes);
  }

  /** The per-bulb throttle after one more `set_rgb`: the target was not
      sent to earlier in the loop, so its transport time is still the one
      from before the group command. */
  lemma GroupRunStepThrottle(baseTransport: map<string, real>, targets: seq<string>, index: nat, now: real,
                             elapsed: real, starts: seq<real>, finish: real, lastTransport: map<string, real>, done: real)
    requires index < |targets| && targets[index] !in targets[..index] && targets[index] in lastTransport
    requires Restamped(baseTransport, lastTransport, targets[..index], starts, elapsed)
    requires finish == if starts == [] then now else starts[|starts| - 1] + elapsed
    requires Throttled(baseTransport, targets, starts, now, elapsed)
    requires done - elapsed == SendTime(if index == 0 then now else finish + GroupCommandSpacing,
                                        lastTransport[targets[index]])
    ensures done - elapsed >= if index == 0 then now else finish + GroupCommandSpacing
    ensures Throttled(baseTransport, targets, starts + [done - elapsed], now, elapsed)
  {
    RestampedKeeps(baseTransport, lastTransport, targets[..index], starts, elapsed, targets[index]);
    ThrottledSnoc(baseTransport, targets, starts, now, elapsed, finish, done - elapsed);
  }

  /** The transport times and the schedule after one more `set_rgb`. */
  lemma GroupRunStepTimes(baseTransport: map<string, real>, targets: seq<string>, index: nat, now: real,
                          elapsed: real, starts: seq<real>, finish: real, lastTransport: map<string, real>, done: real)
    requires index < |targets| && targets[index] !in targets[..index] && targets[index] in lastTransport
    requires elapsed >= 0.0
    requires Restamped(baseTransport, lastTransport, targets[..index], starts, elapsed)
    requires OnSchedule(starts, now, elapsed, finish)
    requires done - elapsed >= if index == 0 then now else finish + GroupCommandSpacing
    ensures Restamped(baseTransport, lastTransport[targets[index] := done], targets[..index + 1],
                      starts + [done - elapsed], elapsed)
    ensures OnSchedule(starts + [done - elapsed], now, elapsed, done)
  {
    RestampedSnoc(baseTransport, lastTransport, targets, index, starts, elapsed, done - elapsed, done);
    ScheduleNext(starts, now, elapsed, finish, done);
  }

  class BulbManager {
    /** `bulbs`: the cached record of every configured bulb. */
    var bulbs: map<string, BulbState>
    /** The configuration order of `bulbs` (dict insertion order). */
    var names: seq<string>
    var groups: map<string, seq<string>>
    /** `last_transport_command`: when each bulb's last command finished. */
    var lastTransport: map<string, real>
    /** The bulbs whose subscribers were notified, in order. */
    var notified: seq<string>

    ghost predicate Valid()
      reads this
    {
      ValidState(bulbs, names, lastTransport)
    }

    /** `__init__` with a loaded configuration: one fresh record per
        configured bulb, in configuration order, with a last transport
        time of 0. */
    constructor (config: seq<(string, string)>, groups: map<string, seq<string>>)
      requires forall i, j | 0 <= i < j < |config| :: config[i].0 != config[j].0
      ensures Valid()
      ensures names == seq(|config|, i requires 0 <= i < |config| => config[i].0)
      ensures forall i | 0 <= i < |config| :: config[i].0 in bulbs && bulbs[config[i].0] == NewBulb(config[i].0, config[i].1)
      ensures forall n | n in lastTransport :: lastTransport[n] == 0.0
      ensures this.groups == groups && notified == []
    {
      var bs: map<string, BulbState> := map[];
      var ns: seq<string> := [];
      var lt: map<string, real> := map[];
      var i := 0;
      while i < |config|
        invariant 0 <= i <= |config|
        invariant ns == seq(i, k requires 0 <= k < i => config[k].0)
        invariant forall n :: n in bs <==> n in ns
        invariant lt.Keys == bs.Keys && forall n | n in lt :: lt[n] == 0.0
        invariant forall k | 0 <= k < i :: config[k].0 in bs && bs[config[k].0] == NewBulb(config[k].0, config[k].1)
      {
        bs := bs[config[i].0 := NewBulb(config[i].0, config[i].1)];
        lt := lt[config[i].0 := 0.0];
        ns := ns + [config[i].0];
        i := i + 1;
      }
      forall n | n in bs ensures BulbStates.Valid(bs[n]) && bs[n].name == n {
        var k :| 0 <= k < |config| && ns[k] == n;
      }
      bulbs, names, this.groups, lastTransport, notified := bs, ns, groups, lt, [];
    }

    /** `resolve_targets(targets)`. */
    method ResolveTargets(targets: seq<string>) returns (resolved: seq<string>)
      ensures resolved == Dedup(Expand(bulbs.Keys, groups, targets))
    {
      var known := bulbs.Keys;
      resolved := [];
      var seen: set<string> := {};
      var i := 0;
      while i < |targets|
        invariant 0 <= i <= |targets|
        invariant resolved == Dedup(Expand(known, groups, targets[..i]))
        invariant forall x :: x in seen <==> x in Expand(known, groups, targets[..i])
      {
        ghost var before := Expand(known, groups, targets[..i]);
        assert targets[..i + 1] == targets[..i] + [targets[i]];
        ExpandSnoc(known, groups, targets[..i], targets[i]);
        resolved, seen := AddTarget(known, groups, targets[i], before, resolved, seen);
        i := i + 1;
      }
      assert targets[..i] == targets;
    }

    /** `_run_serialized_command(name, command)`: an unknown bulb fails
        without sending; otherwise the send starts no earlier than 0.12 s
        after the bulb's last transport time, succeeds when `bytes(frame)`
        is accepted and the device acknowledges, and the transport time is
        recorded when the command finishes, whether or not it succeeded. */
    method RunSerialized(name: string, frame: seq<int>, now: real, ack: bool, elapsed: Duration)
      returns (success: bool, sentAt: real)
      requires Valid()
      modifies this
      ensures Valid()
      ensures bulbs == old(bulbs) && names == old(names) && groups == old(groups) && notified == old(notified)
      ensures name !in old(bulbs) ==> !success && lastTransport == old(lastTransport)
      ensures name in old(bulbs) ==>
                success == (AllBytes(frame) && ack) &&
                sentAt == SendTime(now, old(lastTransport)[name]) &&
                lastTransport == old(lastTransport)[name := sentAt + elapsed]
    {
      if name !in bulbs {
        return false, now;
      }
      var last := lastTransport[name];
      sentAt := SendTime(now, last);
      success := ToWire(frame).Some? && ack;
      lastTransport := lastTransport[name := sentAt + elapsed];
    }

    /** Storing a command's effect on a known bulb, then `_notify_update`. */
    method Record(name: string, c: BulbState)
      requires Valid() && name in bulbs && BulbStates.Valid(c) && c.name == name
      modifies this
      ensures Valid()
      ensures names == old(names) && groups == old(groups) && lastTransport == old(lastTransport)
      ensures bulbs == old(bulbs)[name := c] && notified == old(notified) + [name]
    {
      ReplaceKeepsValid(bulbs, names, lastTransport, name, c, 0.0);
      bulbs := bulbs[name := c];
      notified := notified + [name];
    }

    /** `set_power(name, on)`; `done` is when the command finished. */
    method SetPower(name: string, on: bool, now: real, ack: bool, elapsed: Duration)
      returns (success: bool, done: real)
      requires Valid()
      modifies this
      ensures Valid()
      ensures success <==> name in old(bulbs) && ack
      ensures bulbs == if success then old(bulbs)[name := ApplyPower(old(bulbs)[name], on, done)] else old(bulbs)
      ensures notified == if success then old(notified) + [name] else old(notified)
      ensures names == old(names) && groups == old(groups)
      ensures name !in old(bulbs) ==> done == now && lastTransport == old(lastTransport)
      ensures name in old(bulbs) ==>
                done == SendTime(now, old(lastTransport)[name]) + elapsed &&
                lastTransport == old(lastTransport)[name := done]
    {
      if name !in bulbs {
        return false, now;
      }
      PowerFrameBytes(on);
      var sentAt;
      success, sentAt := RunSerialized(name, PowerFrame(on), now, ack, elapsed);
      done := sentAt + elapsed;
      if success {
        UpdatesPreserveValid(bulbs[name], done);
        Record(name, ApplyPower(bulbs[name], on, done));
      }
    }

    /** `set_rgb(name, r, g, b)`: a channel outside 0..255 makes
        `bytes(...)` raise inside the send, which then fails. */
    method SetRgb(name: string, r: int, g: int, b: int, now: real, ack: bool, elapsed: Duration)
      returns (success: bool, done: real)
      requires Valid()
      modifies this
      ensures Valid()
      ensures success <==> name in old(bulbs) && 0 <= r < 256 && 0 <= g < 256 && 0 <= b < 256 && ack
      ensures bulbs == if success then old(bulbs)[name := ApplyRgb(old(bulbs)[name], r, g, b, done)] else old(bulbs)
      ensures notified == if success then old(notified) + [name] else old(notified)
      ensures names == old(names) && groups == old(groups)
      ensures name !in old(bulbs) ==> done == now && lastTransport == old(lastTransport)
      ensures name in old(bulbs) ==>
                done == SendTime(now, old(lastTransport)[name]) + elapsed &&
                lastTransport == old(lastTransport)[name := done]
    {
      if name !in bulbs {
        return false, now;
      }
      RgbFrameBytes(r, g, b);
      var sentAt;
      success, sentAt := RunSerialized(name, RgbFrame(r, g, b), now, ack, elapsed);
      done := sentAt + elapsed;
      if success {
        UpdatesPreserveValid(bulbs[name], done);
        Record(name, ApplyRgb(bulbs[name], r, g, b, done));
      }
    }

    /** `set_hsv(name, h, s, v)`: the colour `hsv_to_rgb` gives is always
        bytes, so only an unknown bulb or the device can make it fail. */
    method SetHsv(name: string, h: real, s: real, v: real, now: real, ack: bool, elapsed: Duration)
      returns (success: bool, done: real)
      requires Valid()
      modifies this
      ensures Valid()
      ensures success <==> name in old(bulbs) && ack
      ensures var c := HsvToRgb(h, s, v);
        bulbs == if success then old(bulbs)[name := ApplyRgb(old(bulbs)[name], c.r, c.g, c.b, done)] else old(bulbs)
      ensures notified == if success then old(notified) + [name] else old(notified)
      ensures names == old(names) && groups == old(groups)
      ensures name !in old(bulbs) ==> done == now && lastTransport == old(lastTransport)
      ensures name in old(bulbs) ==>
                done == SendTime(now, old(lastTransport)[name]) + elapsed &&
                lastTransport == old(lastTransport)[name := done]
    {
      var c := HsvToRgb(h, s, v);
      HsvToRgbChannels(h, s, v);
      success, done := SetRgb(name, c.r, c.g, c.b, now, ack, elapsed);
    }

    /** `set_warm_white(name, brightness)`: only a percentage in 0..100
        gives a byte, so any other percentage fails in the send. */
    method SetWarmWhite(name: string, brightness: int, now: real, ack: bool, elapsed: Duration)
      returns (success: bool, done: real)
      requires Valid()
      modifies this
      ensures Valid()
      ensures success <==> name in old(bulbs) && 0 <= brightness <= 100 && ack
      ensures bulbs == if success then old(bulbs)[name := ApplyWarmWhite(old(bulbs)[name], WarmWhiteByte(brightness), done)]
                       else old(bulbs)
      ensures notified == if success then old(notified) + [name] else old(notified)
      ensures names == old(names) && groups == old(groups)
      ensures name !in old(bulbs) ==> done == now && lastTransport == old(lastTransport)
      ensures name in old(bulbs) ==>
                done == SendTime(now, old(lastTransport)[name]) + elapsed &&
                lastTransport == old(lastTransport)[name := done]
    {
      if name !in bulbs {
        return false, now;
      }
      var ww := WarmWhiteByte(brightness);
      WarmWhiteByteRange(brightness);
      WarmWhiteFrameBytes(ww);
      var sentAt;
      success, sentAt := RunSerialized(name, WarmWhiteFrame(ww), now, ack, elapsed);
      done := sentAt + elapsed;
      if success {
        UpdatesPreserveValid(bulbs[name], done);
        Record(name, ApplyWarmWhite(bulbs[name], ww, done));
      }
    }

    /** `set_group_rgb(group_names, r, g, b)`: resolve the names, then one
        `set_rgb` per resolved bulb in order. `reachable` is the set of
        bulbs whose device acknowledges; `starts[i]` is when the i-th
        command was sent. */
    method SetGroupRgb(groupNames: seq<string>, r: int, g: int, b: int, now: real,
                       reachable: set<string>, elapsed: Duration)
      returns (targets: seq<string>, results: map<string, bool>, starts: seq<real>, finish: real)
      requires Valid()
      modifies this
      ensures Valid()
      ensures targets == Dedup(Expand(old(bulbs).Keys, old(groups), groupNames))
      ensures NoDup(targets) && forall n | n in targets :: n in old(bulbs)
      ensures results == Outcomes(targets, reachable, 0 <= r < 256 && 0 <= g < 256 && 0 <= b < 256)
      ensures bulbs.Keys == old(bulbs).Keys && |starts| == |targets|
      ensures bulbs == Recolored(old(bulbs), targets, results, starts, elapsed, RgbPainter(r, g, b))
      ensures names == old(names) && groups == old(groups)
      ensures notified == old(notified) + Acknowledged(targets, reachable, 0 <= r < 256 && 0 <= g < 256 && 0 <= b < 256)
      ensures Restamped(old(lastTransport), lastTransport, targets, starts, elapsed)
      ensures OnSchedule(starts, now, elapsed, finish)
      ensures Throttled(old(lastTransport), targets, starts, now, elapsed)
    {
      targets := ResolveTargets(groupNames);
      assert NoDup(targets) && forall x | x in targets :: x in bulbs by {
        ResolvedFacts(bulbs.Keys, groups, groupNames);
      }
      results, starts, finish := SetRgbInTurn(targets, r, g, b, now, reachable, elapsed);
    }

    /** The loop of `set_group_rgb`: `set_rgb` for each of `targets` in
        turn, sleeping 0.02 s between consecutive commands and not after
        the last. */
    method SetRgbInTurn(targets: seq<string>, r: int, g: int, b: int, now: real,
                        reachable: set<string>, elapsed: Duration)
      returns (results: map<string, bool>, starts: seq<real>, finish: real)
      requires Valid()
      requires NoDup(targets) && forall n | n in targets :: n in bulbs
      modifies this
      ensures Valid()
      ensures names == old(names) && groups == old(groups)
      ensures results == Outcomes(targets, reachable, 0 <= r < 256 && 0 <= g < 256 && 0 <= b < 256)
      ensures |starts| == |targets|
      ensures bulbs == Recolored(old(bulbs), targets, results, starts, elapsed, RgbPainter(r, g, b))
      ensures notified == old(notified) + Acknowledged(targets, reachable, 0 <= r < 256 && 0 <= g < 256 && 0 <= b < 256)
      ensures Restamped(old(lastTransport), lastTransport, targets, starts, elapsed)
      ensures OnSchedule(starts, now, elapsed, finish)
      ensures Throttled(old(lastTransport), targets, starts, now, elapsed)
    {
      results := map[];
      starts := [];
      finish := now;
      var index := 0;
      while index < |targets|
        invariant 0 <= index <= |targets|
        invariant names == old(names) && groups == old(groups)
        invariant GroupProgress(old(bulbs), old(lastTransport), old(notified), targets, index, r, g, b, now,
                                reachable, elapsed, results, starts, finish)
      {
        results, starts, finish := SetRgbNext(old(bulbs), old(lastTransport), old(notified), targets, index,
                                              r, g, b, now, reachable, elapsed, results, starts, finish);
        index := index + 1;
      }
      assert targets[..index] == targets;
    }

    /** How far the `set_group_rgb` loop has got after sending to the first
        `index` of `targets`, starting from the records `base`, the
        transport times `baseTransport` and the log `baseNotified`. */
    ghost predicate GroupProgress(base: map<string, BulbState>, baseTransport: map<string, real>,
                                  baseNotified: seq<string>, targets: seq<string>, index: nat,
                                  r: int, g: int, b: int, now: real, reachable: set<string>, elapsed: real,
                                  results: map<string, bool>, starts: seq<real>, finish: real)
      reads this
    {
      Valid() &&
      GroupRun(base, baseTransport, baseNotified, bulbs, lastTransport, notified, targets, index,
               r, g, b, now, reachable, elapsed, results, starts, finish)
    }

    /** One pass of the `set_group_rgb` loop: wait 0.02 s unless this is the
        first command, then `set_rgb` to the next bulb. */
    method SetRgbNext(ghost base: map<string, BulbState>, ghost baseTransport: map<string, real>,
                      ghost baseNotified: seq<string>, targets: seq<string>, index: nat,
                      r: int, g: int, b: int, now: real, reachable: set<string>, elapsed: Duration,
                      results: map<string, bool>, starts: seq<real>, finish: real)
      returns (results': map<string, bool>, starts': seq<real>, finish': real)
      requires index < |targets|
      requires NoDup(targets) && forall n | n in targets :: n in base
      requires GroupProgress(base, baseTransport, baseNotified, targets, index, r, g, b, now, reachable, elapsed,
                             results, starts, finish)
      modifies this
      ensures names == old(names) && groups == old(groups)
      ensures GroupProgress(base, baseTransport, baseNotified, targets, index + 1, r, g, b, now, reachable, elapsed,
                            results', starts', finish')
    {
      var name := targets[index];
      var t := if index == 0 then now else finish + GroupCommandSpacing;
      ghost var prev, prevTransport, prevNotified := bulbs, lastTransport, notified;
      assert name in prev && name in prevTransport;
      var success, done := SetRgb(name, r, g, b, t, name in reachable, elapsed);
      results' := results[name := success];
      starts' := starts + [done - elapsed];
      finish' := done;
      GroupRunStep(base, baseTransport, baseNotified, targets, index, r, g, b, now, reachable, elapsed,
                   results, starts, finish, prev, prevTransport, prevNotified, success, done,
                   bulbs, lastTransport, notified, results', starts');
    }

    /** `refresh_bulb(name)` at `now`; `status` is what `get_status`
        produced (`None` when it raised or returned a non-dict). */
    method RefreshBulb(name: string, now: real, status: Option<StatusDict>) returns (online: bool)
      requires Valid()
      requires status.Some? ==> ByteChannels(status.value)
      modifies this
      ensures Valid()
      ensures names == old(names) && groups == old(groups) && lastTransport == old(lastTransport)
      ensures name !in old(bulbs) ==> !online && bulbs == old(bulbs) && notified == old(notified)
      ensures name in old(bulbs) && RefreshGuard(old(bulbs)[name], now) ==>
                online == old(bulbs)[name].online && bulbs == old(bulbs) && notified == old(notified)
      ensures name in old(bulbs) && !RefreshGuard(old(bulbs)[name], now) ==>
                bulbs == old(bulbs)[name := Refresh(old(bulbs)[name], status, now)] &&
                online == bulbs[name].online && notified == old(notified) + [name]
    {
      if name !in bulbs {
        return false;
      }
      var bulb := bulbs[name];
      if RefreshGuard(bulb, now) {
        return bulb.online;
      }
      RefreshPreservesValid(bulb, status, now);
      bulbs := bulbs[name := Refresh(bulb, status, now)];
      notified := notified + [name];
      online := bulbs[name].online;
    }

    /** `_poll_single_bulb(name)`. */
    method PollSingle(name: string, now: real, status: Option<StatusDict>) returns (success: bool)
      requires Valid() && name in bulbs
      requires status.Some? ==> ByteChannels(status.value)
      modifies this
      ensures Valid()
      ensures names == old(names) && groups == old(groups) && lastTransport == old(lastTransport)
      ensures bulbs == old(bulbs)[name := PollOutcome(old(bulbs)[name], now, status)]
      ensures notified == if ShouldSkip(old(bulbs)[name], now) then old(notified) else old(notified) + [name]
      ensures ShouldSkip(old(bulbs)[name], now) ==> success
      ensures !ShouldSkip(old(bulbs)[name], now) ==> success == Refresh(old(bulbs)[name], status, now).online
    {
      var bulb := bulbs[name];
      if ShouldSkip(bulb, now) {
        return true;
      }
      RefreshGuardWithinSkip(bulb, now);
      ghost var refreshed := Refresh(bulb, status, now);
      success := RefreshBulb(name, now, status);
      assert bulbs == old(bulbs)[name := refreshed];
      UpdateBackoff(name, success);
      assert PollOutcome(bulb, now, status) == UpdatePollInterval(refreshed, success);
      UpdateTwice(old(bulbs), name, refreshed, UpdatePollInterval(refreshed, success));
    }

    /** `_update_poll_interval(bulb, success)` on the record of `name`. */
    method UpdateBackoff(name: string, success: bool)
      requires Valid() && name in bulbs
      modifies this
      ensures Valid()
      ensures names == old(names) && groups == old(groups) && lastTransport == old(lastTransport)
      ensures notified == old(notified)
      ensures bulbs == old(bulbs)[name := UpdatePollInterval(old(bulbs)[name], success)]
    {
      UpdatesPreserveValid(bulbs[name], 0.0);
      ReplaceKeepsValid(bulbs, names, lastTransport, name, UpdatePollInterval(bulbs[name], success), 0.0);
      bulbs := bulbs[name := UpdatePollInterval(bulbs[name], success)];
    }

    /** The selection step of `_background_polling_loop` at `now`. */
    method DueForPoll(now: real) returns (due: seq<string>)
      ensures due == DueNames(bulbs, names, now)
    {
      due := [];
      var i := 0;
      while i < |names|
        invariant 0 <= i <= |names|
        invariant due == DueNames(bulbs, names[..i], now)
      {
        var name := names[i];
        assert names[..i + 1] == names[..i] + [name];
        if name in bulbs && PollDue(bulbs[name], now) {
          due := due + [name];
        }
        i := i + 1;
      }
      assert names[..i] == names;
    }

    /** One round of `_background_polling_loop`: select the due bulbs, then
        poll them. */
    method PollRound(now: real, statuses: map<string, Option<StatusDict>>) returns (due: seq<string>)
      requires Valid() && ByteStatuses(statuses)
      modifies this
      ensures Valid()
      ensures due == DueNames(old(bulbs), old(names), now)
      ensures names == old(names) && groups == old(groups) && lastTransport == old(lastTransport)
      ensures notified == old(notified) + Unskipped(old(bulbs), due, now)
      ensures bulbs.Keys == old(bulbs).Keys
      ensures forall n | n in bulbs ::
                bulbs[n] == if PollDue(old(bulbs)[n], now) then PollOutcome(old(bulbs)[n], now, StatusFor(statuses, n))
                            else old(bulbs)[n]
    {
      due := DueForPoll(now);
      PollEach(due, now, statuses);
    }

    /** `asyncio.gather` over the poll tasks, run one after another. */
    method PollEach(due: seq<string>, now: real, statuses: map<string, Option<StatusDict>>)
      requires Valid() && ByteStatuses(statuses)
      requires NoDup(due) && forall n | n in due :: n in bulbs
      modifies this
      ensures Valid()
      ensures names == old(names) && groups == old(groups) && lastTransport == old(lastTransport)
      ensures PolledSoFar(old(bulbs), bulbs, due, now, statuses)
      ensures notified == old(notified) + Unskipped(old(bulbs), due, now)
    {
      var i := 0;
      while i < |due|
        invariant 0 <= i <= |due|
        invariant Valid()
        invariant names == old(names) && groups == old(groups) && lastTransport == old(lastTransport)
        invariant PolledSoFar(old(bulbs), bulbs, due[..i], now, statuses)
        invariant notified == old(notified) + Unskipped(old(bulbs), due[..i], now)
      {
        var name := due[i];
        TakeNext(due, i);
        ghost var mid, midNotified := bulbs, notified;
        assert mid[name] == old(bulbs)[name];
        var _ := PollSingle(name, now, StatusFor(statuses, name));
        PolledStep(old(bulbs), mid, due[..i], name, now, statuses);
        UnskippedLogStep(old(notified), midNotified, notified, old(bulbs), due, i, now);
        i := i + 1;
      }
      assert due[..i] == due;
    }
  }
}
