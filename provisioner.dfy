// The string handling and bookkeeping of backend/provisioner.py: the AT
// command terminator, the discovery reply, the MAC spellings and the name
// lookup, the filtering of `wpa_cli scan_results`, and the cooldown map of
// watch mode. Sockets, subprocesses and Wi-Fi association are not
// modelled: what the bulb or the tool answered is an input, and so is
// whether a provisioning run succeeded and the clock readings.

module Provisioner {
  import opened Common
  import opened Text

  // ---------------------------------------------------------------------
  // AT commands and discovery

  /** The string `at_cmd(cmd)` hands to `at_send`: `\r` appended unless it
      is already there. */
  function AtCommand(cmd: string): (c: string)
    ensures EndsWith(c, "\r")
  {
    if EndsWith(cmd, "\r") then cmd else cmd + "\r"
  }

  /** Terminating twice is terminating once, and the command itself is
      kept in front with at most the one character added. */
  lemma AtCommandFacts(cmd: string)
    ensures AtCommand(AtCommand(cmd)) == AtCommand(cmd)
    ensures |cmd| <= |AtCommand(cmd)| <= |cmd| + 1 && AtCommand(cmd)[..|cmd|] == cmd
    ensures EndsWith(cmd, "\r") <==> AtCommand(cmd) == cmd
  {
  }

  /** What `discover` returns: the bulb's IP, MAC and model. */
  datatype BulbInfo = BulbInfo(ip: string, mac: string, model: string)

  /** `discover()`, given `at_send`'s stripped reply (`None` on a timeout):
      no reply or an empty one gives nothing; otherwise the first three
      comma-separated fields, when there are at least three. */
  function Discover(resp: Option<string>): Option<BulbInfo>
  {
    if resp.None? || resp.value == "" then None
    else
      var parts := Split(resp.value, ',');
      if |parts| >= 3 then Some(BulbInfo(parts[0], parts[1], parts[2])) else None
  }

  /** A reply `ip,mac,model[,more...]` is read back field by field, extra
      fields ignored. */
  lemma DiscoverReply(fields: seq<string>)
    requires |fields| >= 3 && forall i | 0 <= i < |fields| :: ',' !in fields[i]
    ensures Discover(Some(Join(fields, ','))) == Some(BulbInfo(fields[0], fields[1], fields[2]))
  {
    SplitJoin(fields, ',');
    DiscoverFields(Join(fields, ','), fields);
  }

  lemma DiscoverFields(reply: string, parts: seq<string>)
    requires Split(reply, ',') == parts && |parts| >= 3
    ensures Discover(Some(reply)) == Some(BulbInfo(parts[0], parts[1], parts[2]))
  {
    assert |Split([], ',')| == 1;
  }

  /** No reply, an empty reply, or a reply with one or two fields gives no
      bulb. */
  lemma DiscoverRejects(a: string, b: string)
    requires ',' !in a && ',' !in b
    ensures Discover(None) == None && Discover(Some("")) == None
    ensures Discover(Some(a)) == None
    ensures Discover(Some(a + "," + b)) == None
  {
    SplitNoSeparator(a, ',');
    SplitJoin([a, b], ',');
    assert Join([a, b], ',') == a + "," + b by {
      assert Join([a, b][1..], ',') == b;
    }
  }

  // ---------------------------------------------------------------------
  // MAC addresses

  /** `info["mac"].replace(":", "").upper()`. */
  function NormalizeMac(mac: string): string
  {
    Upper(RemoveChar(mac, ':'))
  }

  /** `":".join(mac[i:i+2] for i in range(0, 12, 2))`. */
  function PrettyMac(mac: string): string
  {
    Join([Slice(mac, 0, 2), Slice(mac, 2, 4), Slice(mac, 4, 6), Slice(mac, 6, 8), Slice(mac, 8, 10), Slice(mac, 10, 12)], ':')
  }

  lemma UpperKeepsColonFree(s: string)
    requires ':' !in s
    ensures ':' !in Upper(s)
  {
    forall i | 0 <= i < |s| ensures Upper(s)[i] != ':' {
      assert s[i] != ':';
    }
  }

  lemma UpperIdempotent(s: string)
    ensures Upper(Upper(s)) == Upper(s)
  {
  }

  /** The normal form has no `:` and is its own normal form. */
  lemma NormalizeMacFacts(mac: string)
    ensures ':' !in NormalizeMac(mac)
    ensures NormalizeMac(NormalizeMac(mac)) == NormalizeMac(mac)
  {
    var m := RemoveChar(mac, ':');
    UpperKeepsColonFree(m);
    RemoveAbsentChar(Upper(m), ':');
    UpperIdempotent(m);
  }

  /** Concatenation of all parts. */
  function Concat(parts: seq<string>): string
  {
    if parts == [] then [] else parts[0] + Concat(parts[1..])
  }

  lemma {:induction false} RemoveCharJoin(parts: seq<string>, c: char)
    requires |parts| >= 1 && forall i | 0 <= i < |parts| :: c !in parts[i]
    ensures RemoveChar(Join(parts, c), c) == Concat(parts)
  {
    RemoveAbsentChar(parts[0], c);
    if |parts| == 1 {
      assert Concat(parts[1..]) == [];
      assert parts[0] + [] == parts[0];
    } else {
      var rest := parts[1..];
      assert forall i | 0 <= i < |rest| :: c !in rest[i] by {
        assert forall i | 0 <= i < |rest| :: rest[i] == parts[i + 1];
      }
      RemoveCharJoin(rest, c);
      assert Join(parts, c) == parts[0] + [c] + Join(rest, c) && Concat(parts) == parts[0] + Concat(rest);
      assert RemoveChar(parts[0] + [c], c) == parts[0] by {
        assert RemoveChar([c], c) == [];
        RemoveCharAppend(parts[0], [c], c);
      }
      RemoveCharAppend(parts[0] + [c], Join(rest, c), c);
    }
  }

  lemma {:induction false} RemoveCharAppend(a: string, b: string, c: char)
    ensures RemoveChar(a + b, c) == RemoveChar(a, c) + RemoveChar(b, c)
  {
    if a == [] {
      assert a + b == b;
    } else {
      var head := if a[0] == c then [] else [a[0]];
      assert (a + b)[0] == a[0] && (a + b)[1..] == a[1..] + b;
      assert RemoveChar(a + b, c) == head + RemoveChar(a[1..] + b, c);
      assert RemoveChar(a, c) == head + RemoveChar(a[1..], c);
      RemoveCharAppend(a[1..], b, c);
      assert head + (RemoveChar(a[1..], c) + RemoveChar(b, c)) == (head + RemoveChar(a[1..], c)) + RemoveChar(b, c);
    }
  }

  /** The six two-character groups of a twelve-character string. */
  function MacGroups(m: string): seq<string>
    requires |m| == 12
  {
    [m[0..2], m[2..4], m[4..6], m[6..8], m[8..10], m[10..12]]
  }

  lemma MacGroupsFacts(m: string)
    requires |m| == 12 && ':' !in m
    ensures PrettyMac(m) == Join(MacGroups(m), ':')
    ensures forall i | 0 <= i < 6 :: ':' !in MacGroups(m)[i]
    ensures Concat(MacGroups(m)) == m
  {
    var g := MacGroups(m);
    assert [Slice(m, 0, 2), Slice(m, 2, 4), Slice(m, 4, 6), Slice(m, 6, 8), Slice(m, 8, 10), Slice(m, 10, 12)] == g;
    forall i | 0 <= i < 6 ensures ':' !in g[i] {
      assert forall x | x in g[i] :: x in m;
    }
    assert Concat(g[6..]) == [];
    assert Concat(g[5..]) == m[10..12] by { assert g[5..][1..] == g[6..]; }
    assert Concat(g[4..]) == m[8..12] by { assert g[4..][1..] == g[5..]; }
    assert Concat(g[3..]) == m[6..12] by { assert g[3..][1..] == g[4..]; }
    assert Concat(g[2..]) == m[4..12] by { assert g[2..][1..] == g[3..]; }
    assert Concat(g[1..]) == m[2..12] by { assert g[1..][1..] == g[2..]; }
    assert Concat(g) == m by { assert g[0..] == g; }
  }

  lemma JoinLength(parts: seq<string>, c: char)
    requires |parts| >= 1 && forall i | 0 <= i < |parts| :: |parts[i]| == 2
    ensures |Join(parts, c)| == 3 * |parts| - 1
  {
    if |parts| > 1 {
      JoinLength(parts[1..], c);
    }
  }

  /** For a twelve-character normal form, the pretty form is six
      two-character groups separated by `:`, and normalising it gives the
      normal form back. */
  lemma PrettyMacRoundTrip(mac: string)
    requires |NormalizeMac(mac)| == 12
    ensures var m := NormalizeMac(mac);
      |PrettyMac(m)| == 17 && Split(PrettyMac(m), ':') == MacGroups(m) && NormalizeMac(PrettyMac(m)) == m
  {
    var m := NormalizeMac(mac);
    NormalizeMacFacts(mac);
    MacGroupsFacts(m);
    JoinLength(MacGroups(m), ':');
    SplitJoin(MacGroups(m), ':');
    RemoveCharJoin(MacGroups(m), ':');
    UpperIdempotent(RemoveChar(mac, ':'));
  }

  /** `mac_to_name.get(mac, mac_to_name.get(mac_pretty, None))`. */
  function MacName(macToName: map<string, string>, mac: string): Option<string>
  {
    if mac in macToName then Some(macToName[mac])
    else if PrettyMac(mac) in macToName then Some(macToName[PrettyMac(mac)])
    else None
  }

  /** The bare key is tried first; a table keyed by the pretty form still
      identifies a bulb however the bulb spells its MAC. */
  lemma MacNameFacts(macToName: map<string, string>, raw: string)
    requires |NormalizeMac(raw)| == 12
    ensures var m := NormalizeMac(raw);
      (m in macToName ==> MacName(macToName, m) == Some(macToName[m])) &&
      (m !in macToName && PrettyMac(m) in macToName ==> MacName(macToName, m) == Some(macToName[PrettyMac(m)])) &&
      (MacName(macToName, m).None? <==> m !in macToName && PrettyMac(m) !in macToName)
    ensures NormalizeMac(PrettyMac(NormalizeMac(raw))) == NormalizeMac(raw)
  {
    PrettyMacRoundTrip(raw);
  }

  // ---------------------------------------------------------------------
  // Scan results

  /** The SSID one line of `scan_results` contributes: its fifth
      tab-separated column, when there is one and it starts with
      `LEDnet`. */
  function LineSsid(line: string): (s: seq<string>)
    ensures |s| <= 1
  {
    var cols := Split(line, '\t');
    if |cols| >= 5 && StartsWith(cols[4], "LEDnet") then [cols[4]] else []
  }

  /** The SSIDs of `lines`, in order. */
  function BulbSsids(lines: seq<string>): seq<string>
  {
    if lines == [] then [] else BulbSsids(lines[..|lines| - 1]) + LineSsid(lines[|lines| - 1])
  }

  /** The parsing loop of `scan_for_bulbs` over `results.splitlines()`. */
  method ScanForBulbs(results: string) returns (ssids: seq<string>)
    ensures ssids == BulbSsids(Split(results, '\n'))
  {
    var lines := Split(results, '\n');
    ssids := [];
    var i := 0;
    while i < |lines|
      invariant 0 <= i <= |lines|
      invariant ssids == BulbSsids(lines[..i])
    {
      var cols := Split(lines[i], '\t');
      assert lines[..i + 1][..i] == lines[..i];
      if |cols| >= 5 {
        var ssid := cols[4];
        if StartsWith(ssid, "LEDnet") {
          ssids := ssids + [ssid];
        }
      }
      i := i + 1;
    }
    assert lines[..i] == lines;
  }

  /** Every SSID kept starts with `LEDnet` and comes from some line, and
      every line's `LEDnet` SSID is kept. */
  lemma {:induction false} BulbSsidsFacts(lines: seq<string>)
    ensures forall x | x in BulbSsids(lines) :: StartsWith(x, "LEDnet")
    ensures forall x :: x in BulbSsids(lines) <==> exists i | 0 <= i < |lines| :: LineSsid(lines[i]) == [x]
  {
    if lines != [] {
      var n := |lines| - 1;
      var init := lines[..n];
      BulbSsidsFacts(init);
      assert BulbSsids(lines) == BulbSsids(init) + LineSsid(lines[n]);
      forall x ensures x in BulbSsids(lines) <==> exists i | 0 <= i < |lines| :: LineSsid(lines[i]) == [x] {
        ContributesSnoc(lines, init, x);
      }
    }
  }

  /** Some line contributes `x` exactly when a line before the last does or
      the last one does. */
  lemma ContributesSnoc(lines: seq<string>, init: seq<string>, x: string)
    requires lines != [] && init == lines[..|lines| - 1]
    ensures (exists i | 0 <= i < |lines| :: LineSsid(lines[i]) == [x]) <==>
              (exists i | 0 <= i < |init| :: LineSsid(init[i]) == [x]) || LineSsid(lines[|lines| - 1]) == [x]
  {
    if exists i | 0 <= i < |lines| :: LineSsid(lines[i]) == [x] {
      var i :| 0 <= i < |lines| && LineSsid(lines[i]) == [x];
      if i < |init| {
        assert lines[i] == init[i];
      }
    }
    if exists i | 0 <= i < |init| :: LineSsid(init[i]) == [x] {
      var i :| 0 <= i < |init| && LineSsid(init[i]) == [x];
      assert lines[i] == init[i];
    }
  }

  /** A line of tab-free columns contributes its fifth column exactly when
      there are at least five and that one starts with `LEDnet`. */
  lemma LineSsidOfColumns(cols: seq<string>)
    requires |cols| >= 1 && forall i | 0 <= i < |cols| :: '\t' !in cols[i]
    ensures LineSsid(Join(cols, '\t')) == if |cols| >= 5 && StartsWith(cols[4], "LEDnet") then [cols[4]] else []
  {
    SplitJoin(cols, '\t');
  }

  // ---------------------------------------------------------------------
  // Watch mode

  /** `cooldown`, in seconds. */
  const Cooldown: real := 300.0

  /** `recently_provisioned.get(ssid, 0)`. */
  function Stamp(recent: map<string, real>, ssid: string): real
  {
    if ssid in recent then recent[ssid] else 0.0
  }

  predicate CoolingDown(recent: map<string, real>, ssid: string, now: real)
  {
    now - Stamp(recent, ssid) < Cooldown
  }

  /** The map after visiting `ssids` in turn at scan time `now`: a run
      that is not skipped and succeeds (`ok[i]`) records the clock reading
      `stamps[i]` taken after it. */
  function Visited(recent: map<string, real>, ssids: seq<string>, now: real, ok: seq<bool>, stamps: seq<real>)
    : map<string, real>
    requires |ok| == |ssids| && |stamps| == |ssids|
  {
    if ssids == [] then recent
    else
      var n := |ssids| - 1;
      var prev := Visited(recent, ssids[..n], now, ok[..n], stamps[..n]);
      if CoolingDown(prev, ssids[n], now) || !ok[n] then prev else prev[ssids[n] := stamps[n]]
  }

  /** The SSIDs `provision_bulb` is called for, in order. */
  function Attempted(recent: map<string, real>, ssids: seq<string>, now: real, ok: seq<bool>, stamps: seq<real>)
    : seq<string>
    requires |ok| == |ssids| && |stamps| == |ssids|
  {
    if ssids == [] then []
    else
      var n := |ssids| - 1;
      var prev := Visited(recent, ssids[..n], now, ok[..n], stamps[..n]);
      Attempted(recent, ssids[..n], now, ok[..n], stamps[..n]) + (if CoolingDown(prev, ssids[n], now) then [] else [ssids[n]])
  }

  /** The clean-up comprehension, with one clock reading `later`. */
  function Cleanup(recent: map<string, real>, later: real): (kept: map<string, real>)
    ensures forall s :: s in kept <==> s in recent && later - recent[s] < Cooldown
    ensures forall s | s in kept :: kept[s] == recent[s]
  {
    map s | s in recent && later - recent[s] < Cooldown :: recent[s]
  }

  /** Visiting one more SSID: the prefix's map, then the next entry. */
  lemma VisitStep(recent: map<string, real>, ssids: seq<string>, now: real, ok: seq<bool>, stamps: seq<real>, i: nat)
    requires |ok| == |ssids| && |stamps| == |ssids| && i < |ssids|
    ensures var prev := Visited(recent, ssids[..i], now, ok[..i], stamps[..i]);
      Visited(recent, ssids[..i + 1], now, ok[..i + 1], stamps[..i + 1]) ==
        (if CoolingDown(prev, ssids[i], now) || !ok[i] then prev else prev[ssids[i] := stamps[i]]) &&
      Attempted(recent, ssids[..i + 1], now, ok[..i + 1], stamps[..i + 1]) ==
        Attempted(recent, ssids[..i], now, ok[..i], stamps[..i]) + (if CoolingDown(prev, ssids[i], now) then [] else [ssids[i]])
  {
    assert ssids[..i + 1][..i] == ssids[..i] && ok[..i + 1][..i] == ok[..i] && stamps[..i + 1][..i] == stamps[..i];
  }

  /** Whether no run among the first `k` SSIDs raised: each of them was
      skipped for its cooldown or ran without `raises[i]`. */
  ghost predicate NoneRaised(recent: map<string, real>, ssids: seq<string>, now: real, ok: seq<bool>,
                             stamps: seq<real>, raises: seq<bool>, k: nat)
    requires |ok| == |ssids| && |stamps| == |ssids| && |raises| == |ssids| && k <= |ssids|
    decreases k
  {
    k == 0 ||
    (NoneRaised(recent, ssids, now, ok, stamps, raises, k - 1) &&
     (CoolingDown(Visited(recent, ssids[..k - 1], now, ok[..k - 1], stamps[..k - 1]), ssids[k - 1], now) || !raises[k - 1]))
  }

  lemma NoneRaisedStep(recent: map<string, real>, ssids: seq<string>, now: real, ok: seq<bool>,
                        stamps: seq<real>, raises: seq<bool>, k: nat)
    requires |ok| == |ssids| && |stamps| == |ssids| && |raises| == |ssids| && k < |ssids|
    requires NoneRaised(recent, ssids, now, ok, stamps, raises, k)
    requires CoolingDown(Visited(recent, ssids[..k], now, ok[..k], stamps[..k]), ssids[k], now) || !raises[k]
    ensures NoneRaised(recent, ssids, now, ok, stamps, raises, k + 1)
  {
  }

  /** One pass of the `cmd_watch` loop after the scan. `raises[i]` says that
      `load_config` or `provision_bulb` raised for the i-th SSID, if it is
      run; the `except Exception` handler then ends the pass. `stopped` is
      the index of the SSID whose run raised, or `|ssids|` when the pass
      completed. A completed pass attempts exactly `Attempted` and keeps
      the cleaned-up map; an aborted one has attempted the SSIDs up to and
      including the raising one, keeps the stamps written so far (the dict
      is updated in place) and skips the clean-up. */
  method WatchCycle(recent: map<string, real>, ssids: seq<string>, now: real, ok: seq<bool>, stamps: seq<real>,
                    raises: seq<bool>, later: real)
    returns (attempted: seq<string>, next: map<string, real>, stopped: nat)
    requires |ok| == |ssids| && |stamps| == |ssids| && |raises| == |ssids|
    ensures stopped <= |ssids| && NoneRaised(recent, ssids, now, ok, stamps, raises, stopped)
    ensures stopped == |ssids| ==>
              attempted == Attempted(recent, ssids, now, ok, stamps) &&
              next == Cleanup(Visited(recent, ssids, now, ok, stamps), later)
    ensures stopped < |ssids| ==>
              raises[stopped] &&
              !CoolingDown(Visited(recent, ssids[..stopped], now, ok[..stopped], stamps[..stopped]), ssids[stopped], now) &&
              attempted == Attempted(recent, ssids[..stopped], now, ok[..stopped], stamps[..stopped]) + [ssids[stopped]] &&
              next == Visited(recent, ssids[..stopped], now, ok[..stopped], stamps[..stopped])
    ensures stopped < |ssids| ==> recent.Keys <= next.Keys
  {
    var m := recent;
    attempted := [];
    var i := 0;
    while i < |ssids|
      invariant 0 <= i <= |ssids|
      invariant m == Visited(recent, ssids[..i], now, ok[..i], stamps[..i])
      invariant attempted == Attempted(recent, ssids[..i], now, ok[..i], stamps[..i])
      invariant NoneRaised(recent, ssids, now, ok, stamps, raises, i)
    {
      VisitStep(recent, ssids, now, ok, stamps, i);
      var ssid := ssids[i];
      var last := if ssid in m then m[ssid] else 0.0;
      assert last == Stamp(m, ssid);
      if now - last < Cooldown {
        NoneRaisedStep(recent, ssids, now, ok, stamps, raises, i);
        i := i + 1;
        continue;
      }
      if raises[i] {
        attempted := attempted + [ssid];
        VisitedKeepsEntries(recent, ssids[..i], now, ok[..i], stamps[..i]);
        next, stopped := m, i;
        return;
      }
      NoneRaisedStep(recent, ssids, now, ok, stamps, raises, i);
      attempted := attempted + [ssid];
      if ok[i] {
        m := m[ssid := stamps[i]];
      }
      i := i + 1;
    }
    assert ssids[..i] == ssids && ok[..i] == ok && stamps[..i] == stamps;
    next := map s | s in m && later - m[s] < Cooldown :: m[s];
    stopped := i;
  }

  /** Visiting never removes an entry: every SSID stamped before the pass
      is still stamped, at its old time or a newer clock reading. So a pass
      that an exception cuts short keeps even the expired entries the
      clean-up would have dropped. */
  lemma {:induction false} VisitedKeepsEntries(recent: map<string, real>, ssids: seq<string>, now: real,
                                               ok: seq<bool>, stamps: seq<real>)
    requires |ok| == |ssids| && |stamps| == |ssids|
    ensures recent.Keys <= Visited(recent, ssids, now, ok, stamps).Keys
  {
    if ssids != [] {
      var n := |ssids| - 1;
      VisitedKeepsEntries(recent, ssids[..n], now, ok[..n], stamps[..n]);
    }
  }

  /** An SSID still cooling down at scan time is not provisioned again in
      this pass, however often the scan lists it, and keeps its stamp. */
  lemma {:induction false} CoolingDownSkipped(recent: map<string, real>, ssids: seq<string>, now: real,
                                              ok: seq<bool>, stamps: seq<real>, ssid: string)
    requires |ok| == |ssids| && |stamps| == |ssids|
    requires CoolingDown(recent, ssid, now)
    ensures ssid !in Attempted(recent, ssids, now, ok, stamps)
    ensures Stamp(Visited(recent, ssids, now, ok, stamps), ssid) == Stamp(recent, ssid)
  {
    if ssids != [] {
      var n := |ssids| - 1;
      CoolingDownSkipped(recent, ssids[..n], now, ok[..n], stamps[..n], ssid);
    }
  }

  /** Only a successful run adds or changes a stamp: every entry after the
      pass is the old one or the clock reading after a successful run. */
  lemma {:induction false} OnlySuccessRecords(recent: map<string, real>, ssids: seq<string>, now: real,
                                              ok: seq<bool>, stamps: seq<real>)
    requires |ok| == |ssids| && |stamps| == |ssids|
    ensures forall s | s in Visited(recent, ssids, now, ok, stamps) ::
              (s in recent && Visited(recent, ssids, now, ok, stamps)[s] == recent[s]) ||
              exists i | 0 <= i < |ssids| :: ssids[i] == s && ok[i] && Visited(recent, ssids, now, ok, stamps)[s] == stamps[i]
  {
    if ssids != [] {
      var n := |ssids| - 1;
      OnlySuccessRecords(recent, ssids[..n], now, ok[..n], stamps[..n]);
      var prev := Visited(recent, ssids[..n], now, ok[..n], stamps[..n]);
      var cur := Visited(recent, ssids, now, ok, stamps);
      forall s | s in cur
        ensures (s in recent && cur[s] == recent[s]) ||
                exists i | 0 <= i < |ssids| :: ssids[i] == s && ok[i] && cur[s] == stamps[i]
      {
        if s in prev && cur[s] == prev[s] {
          if !(s in recent && prev[s] == recent[s]) {
            var i :| 0 <= i < n && ssids[..n][i] == s && ok[..n][i] && prev[s] == stamps[..n][i];
            assert ssids[i] == s && ok[i] && cur[s] == stamps[i];
          }
        } else {
          assert ssids[n] == s && ok[n] && cur[s] == stamps[n];
        }
      }
    }
  }

  /** An SSID never provisioned is tried once the clock is past the
      cooldown (the missing stamp counts as time 0); a run that fails
      leaves no stamp, so it is tried again on the next pass. */
  lemma RetryAfterFailure(recent: map<string, real>, ssid: string, now: real, stamp: real)
    requires ssid !in recent && now >= Cooldown
    ensures Attempted(recent, [ssid], now, [false], [stamp]) == [ssid]
    ensures Visited(recent, [ssid], now, [false], [stamp]) == recent
  {
    assert [ssid][..0] == [] && [false][..0] == [] && [stamp][..0] == [];
    assert Visited(recent, [], now, [], []) == recent;
    assert !CoolingDown(recent, ssid, now);
  }

  /** A successful first run records its clock reading. */
  lemma FirstSuccessRecorded(recent: map<string, real>, ssid: string, now: real, stamp: real)
    requires ssid !in recent && now >= Cooldown
    ensures Attempted(recent, [ssid], now, [true], [stamp]) == [ssid]
    ensures Visited(recent, [ssid], now, [true], [stamp]) == recent[ssid := stamp]
  {
    assert [ssid][..0] == [] && [true][..0] == [] && [stamp][..0] == [];
    assert Visited(recent, [], now, [], []) == recent;
    assert !CoolingDown(recent, ssid, now);
  }
}
