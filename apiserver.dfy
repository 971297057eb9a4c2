// The FastAPI server main.py, without HTTP, WebSockets and sockets: the
// colour-name lookup, the status record `format_bulb_status` builds from a
// decoded reply, the inline `set_brightness_only` decision, the command
// dispatch shared by `control_bulb` and `control_single_bulb`, the status
// codes `control_bulb` answers with, and the target resolution and
// de-duplication of `control_group`. The frames, `hex_to_rgb`,
// `rgb_to_hex`, `query_status` and `get_target_bulbs` of main.py are the
// same as the ones in `Protocol`, `ColorMath` and `Cli`.

module ApiServer {
  import opened Common
  import opened Text
  import opened Protocol
  import opened ColorMath
  import opened Targets
  import opened Cli

  // ---------------------------------------------------------------------
  // Colour names and the status record

  /** `get_color_name(hex_color)`; `colors` is the preset table in
      configuration order. */
  function GetColorName(colors: seq<(string, string)>, hex: string): string
  {
    var preset := PresetFor(colors, Upper(hex));
    if preset.Some? then preset.value else hex
  }

  /** The name of the first preset whose hex matches, ignoring case, or the
      input itself when none matches. */
  lemma GetColorNameFacts(colors: seq<(string, string)>, hex: string)
    ensures (forall i | 0 <= i < |colors| :: Upper(colors[i].1) != Upper(hex)) ==> GetColorName(colors, hex) == hex
    ensures forall k | 0 <= k < |colors| && Upper(colors[k].1) == Upper(hex) &&
                       (forall j | 0 <= j < k :: Upper(colors[j].1) != Upper(hex)) ::
              GetColorName(colors, hex) == colors[k].0
  {
    PresetForFirst(colors, Upper(hex));
    forall k | 0 <= k < |colors| && Upper(colors[k].1) == Upper(hex) &&
               (forall j | 0 <= j < k :: Upper(colors[j].1) != Upper(hex))
      ensures GetColorName(colors, hex) == colors[k].0
    {
      PresetForAt(colors, Upper(hex), k);
    }
  }

  /** The `BulbStatus` response model. */
  datatype BulbStatus = BulbStatus(name: string, online: bool, on: bool, red: int, green: int, blue: int,
                                   warmWhite: int, brightnessPercent: int, colorHex: string, colorName: string)

  /** `BulbStatus(name=name, online=False)`: every other field at its
      declared default. */
  function OfflineStatus(name: string): BulbStatus
  {
    BulbStatus(name, false, false, 0, 0, 0, 0, 0, "#000000", "black")
  }

  /** `format_bulb_status(name, ip)`, given what `query_status` returned. */
  function FormatBulbStatus(name: string, status: Option<Reading>, colors: seq<(string, string)>): (s: BulbStatus)
    ensures s.name == name && (s.online <==> status.Some?)
    ensures 0 <= s.brightnessPercent <= 100 && |s.colorHex| == 7 && s.colorHex[0] == '#'
  {
    match status
    case None => OfflineStatus(name)
    case Some(st) =>
      if st.warmWhite > 0 then
        BulbStatus(name, true, st.on, st.red, st.green, st.blue, st.warmWhite,
                   Percent(st.warmWhite), "#FFFFFF", "warm white")
      else
        RgbToHexFormat(st.red, st.green, st.blue);
        var hex := RgbToHex(st.red, st.green, st.blue);
        BulbStatus(name, true, st.on, st.red, st.green, st.blue, st.warmWhite,
                   Percent(Max3(st.red, st.green, st.blue) as byte), hex, GetColorName(colors, hex))
  }

  /** A bulb that does not answer is reported offline and off, black, at
      0 %, under its own name. */
  lemma FormatBulbStatusOffline(name: string, colors: seq<(string, string)>)
    ensures var s := FormatBulbStatus(name, None, colors);
      s.name == name && !s.online && !s.on && s.red == 0 && s.green == 0 && s.blue == 0 &&
      s.warmWhite == 0 && s.brightnessPercent == 0 && s.colorHex == "#000000" && s.colorName == "black"
  {
  }

  /** An answering bulb reports its reading unchanged. In warm-white mode it
      shows as white at the warm-white percentage; otherwise its hex reads
      back as its channels, its brightness is that of its brightest
      channel (100 % exactly when that channel is 255), and its name is the
      first matching preset or the hex itself. */
  lemma FormatBulbStatusOnline(name: string, st: Reading, colors: seq<(string, string)>)
    ensures var s := FormatBulbStatus(name, Some(st), colors);
      s.on == st.on && s.red == st.red && s.green == st.green && s.blue == st.blue && s.warmWhite == st.warmWhite &&
      (st.warmWhite > 0 ==>
         s.brightnessPercent == Percent(st.warmWhite) && s.colorHex == "#FFFFFF" && s.colorName == "warm white") &&
      (st.warmWhite == 0 ==>
         HexToRgb(s.colorHex) == Some(Rgb(st.red, st.green, st.blue)) &&
         (s.brightnessPercent == 100 <==> Max3(st.red, st.green, st.blue) == 255) &&
         (s.colorName == s.colorHex || exists k | 0 <= k < |colors| :: s.colorName == colors[k].0))
  {
    if st.warmWhite == 0 {
      HexRoundTrip(st.red, st.green, st.blue);
      var hex := RgbToHex(st.red, st.green, st.blue);
      PresetForFirst(colors, Upper(hex));
    }
  }

  /** The percentage shown for a warm-white byte set from a percentage is
      that percentage or one less: both conversions truncate. */
  lemma WarmWhitePercentReadBack(p: int)
    requires 0 <= p <= 100
    ensures 0 <= WarmWhiteLevel(p) < 256
    ensures p - 1 <= Percent(WarmWhiteLevel(p) as byte) <= p
    ensures Percent(WarmWhiteLevel(0) as byte) == 0 && Percent(WarmWhiteLevel(100) as byte) == 100
    ensures Percent(WarmWhiteLevel(1) as byte) == 0
  {
    WarmWhiteLevelRange(p);
    var w := WarmWhiteLevel(p);
    assert w == (p * 255) / 100;
    assert 255 * p - 99 <= 100 * w <= 255 * p;
    var q := (w * 100) / 255;
    assert 255 * q <= 100 * w < 255 * q + 255;
    assert 255 * q <= 255 * p;
    assert 255 * (p - 1) < 255 * q + 255;
    assert WarmWhiteLevel(1) == 2;
  }

  // ---------------------------------------------------------------------
  // set_brightness_only, as main.py writes it

  /** main.py's `set_brightness_only(p)`: the same decision as led.py's,
      with the full-brightness rescaling written inline. */
  function InlineBrightnessOnly(status: Option<Reading>, p: int): DeviceCommand
  {
    if status.None? || !status.value.on then
      var w := ApplyBrightness(255, 255, 255, p);
      SendRgb(w.r, w.g, w.b)
    else if status.value.warmWhite > 0 then SendWarmWhite(WarmWhiteLevel(p))
    else
      var st := status.value;
      var m := Max3(st.red, st.green, st.blue);
      if m == 0 then
        var w := ApplyBrightness(255, 255, 255, p);
        SendRgb(w.r, w.g, w.b)
      else
        var d := ApplyBrightness(Rescale(st.red, m), Rescale(st.green, m), Rescale(st.blue, m), p);
        SendRgb(d.r, d.g, d.b)
  }

  /** The two copies decide alike, so everything proved about led.py's
      decision holds for main.py's. */
  lemma InlineBrightnessOnlyAgrees(status: Option<Reading>, p: int)
    ensures InlineBrightnessOnly(status, p) == BrightnessOnly(status, p)
  {
    if status.Some? && status.value.on && status.value.warmWhite == 0 {
      var st := status.value;
      var c := FullBrightnessColor(st);
      assert c.Some?;
    }
  }

  // ---------------------------------------------------------------------
  // Command dispatch

  /** The `BulbCommand` request body. */
  datatype BulbCommand = BulbCommand(action: string, color: Option<string>, brightness: Option<int>, warmWhite: Option<int>)

  /** What the dispatch does with a command: send one frame, reject the
      command (no branch matched), or fail in `hex_to_rgb`. */
  datatype Action = Send(cmd: DeviceCommand) | Invalid | BadColor

  /** Python's `x or d` for an optional int: `None` and `0` both give `d`. */
  function OrDefault(x: Option<int>, d: int): int
  {
    if x.Some? && x.value != 0 then x.value else d
  }

  /** `COLORS.get(key, default)` over the preset table. */
  function PresetHex(colors: seq<(string, string)>, key: string, default: string): string
  {
    if colors == [] then default
    else if colors[0].0 == key then colors[0].1
    else PresetHex(colors[1..], key, default)
  }

  /** The upper-cased colour words that mean warm white. */
  predicate IsWarmWhiteWord(s: string)
  {
    s == "WW" || s == "WARMWHITE" || s == "WARM"
  }

  /** The `if`-chain of `control_bulb` and `control_single_bulb`; `status`
      is what the status query answered (read by "toggle" and
      "brightness" only). */
  function BulbAction(cmd: BulbCommand, colors: seq<(string, string)>, status: Option<Reading>): Action
  {
    if cmd.action == "on" then Send(SendPower(true))
    else if cmd.action == "off" then Send(SendPower(false))
    else if cmd.action == "toggle" then
      Send(SendPower(!(status.Some? && status.value.on)))
    else if cmd.action == "color" && cmd.color.Some? && cmd.color.value != "" then
      ColorAction(cmd.color.value, cmd.brightness, colors)
    else if cmd.action == "brightness" && cmd.brightness.Some? then
      Send(InlineBrightnessOnly(status, cmd.brightness.value))
    else if cmd.action == "warm_white" then
      Send(SendWarmWhite(WarmWhiteLevel(OrDefault(cmd.warmWhite, OrDefault(cmd.brightness, 100)))))
    else Invalid
  }

  /** The "color" branch: a warm-white word sends warm white at the
      brightness (default 100); anything else is a preset name or a hex
      string for `hex_to_rgb`, dimmed when a brightness is given. */
  function ColorAction(color: string, brightness: Option<int>, colors: seq<(string, string)>): Action
  {
    if IsWarmWhiteWord(Upper(color)) then Send(SendWarmWhite(WarmWhiteLevel(OrDefault(brightness, 100))))
    else
      var rgb := HexToRgb(PresetHex(colors, Lower(color), color));
      if rgb.None? then BadColor
      else if brightness.Some? then
        var d := ApplyBrightness(rgb.value.r, rgb.value.g, rgb.value.b, brightness.value);
        Send(SendRgb(d.r, d.g, d.b))
      else Send(SendRgb(rgb.value.r, rgb.value.g, rgb.value.b))
  }

  /** The request model bounds both percentages to 0..100. */
  predicate ValidPercents(cmd: BulbCommand)
  {
    (cmd.brightness.Some? ==> 0 <= cmd.brightness.value <= 100) &&
    (cmd.warmWhite.Some? ==> 0 <= cmd.warmWhite.value <= 100)
  }

  /** A command is rejected exactly when no branch applies: an unknown
      action, "color" without a (non-empty) colour, or "brightness"
      without a brightness. */
  lemma InvalidExactly(cmd: BulbCommand, colors: seq<(string, string)>, status: Option<Reading>)
    ensures BulbAction(cmd, colors, status) == Invalid <==>
      !(cmd.action in {"on", "off", "toggle", "warm_white"} ||
        (cmd.action == "color" && cmd.color.Some? && cmd.color.value != "") ||
        (cmd.action == "brightness" && cmd.brightness.Some?))
    ensures BulbAction(cmd, colors, status) == BadColor ==> cmd.action == "color"
  {
  }

  /** The server's "on", "off" and "toggle" send the frame the command-line
      tool sends for the same reading: the toggle turns an answering bulb
      that is on off, and any other bulb on. */
  lemma PowerActionsAgree(colors: seq<(string, string)>, status: Option<Reading>, brightness: Option<int>)
    ensures BulbAction(BulbCommand("on", None, brightness, None), colors, status) == Send(Dispatch(PowerOn, status).cmd)
    ensures BulbAction(BulbCommand("off", None, brightness, None), colors, status) == Send(Dispatch(PowerOff, status).cmd)
    ensures BulbAction(BulbCommand("toggle", None, brightness, None), colors, status) == Send(Dispatch(Toggle, status).cmd)
    ensures Dispatch(Toggle, status) == Issue(SendPower(status.None? || !status.value.on))
  {
  }

  /** Within the request model's bounds, every frame the dispatch sends
      holds bytes only, so it gets past `bytes(data)`. */
  lemma ActionSendable(cmd: BulbCommand, colors: seq<(string, string)>, status: Option<Reading>)
    requires ValidPercents(cmd)
    ensures BulbAction(cmd, colors, status).Send? ==> ToWire(FrameOf(BulbAction(cmd, colors, status).cmd)).Some?
  {
    var a := BulbAction(cmd, colors, status);
    if a.Send? {
      FrameSendable(a.cmd);
      WarmWhiteLevelRange(100);
      if cmd.brightness.Some? {
        WarmWhiteLevelRange(cmd.brightness.value);
        BrightnessOnlyFacts(status, cmd.brightness.value);
        InlineBrightnessOnlyAgrees(status, cmd.brightness.value);
      }
      if cmd.warmWhite.Some? {
        WarmWhiteLevelRange(cmd.warmWhite.value);
      }
      if cmd.action == "color" && cmd.color.Some? && cmd.color.value != "" && !IsWarmWhiteWord(Upper(cmd.color.value)) {
        var rgb := HexToRgb(PresetHex(colors, Lower(cmd.color.value), cmd.color.value)).value;
        if cmd.brightness.Some? {
          DimFacts(rgb.r as byte, cmd.brightness.value);
          DimFacts(rgb.g as byte, cmd.brightness.value);
          DimFacts(rgb.b as byte, cmd.brightness.value);
        }
      }
    }
  }

  /** Warm white defaults to full brightness: a missing or zero percentage
      means 100, and "warm_white" falls back to the brightness field. */
  lemma WarmWhiteDefaults(cmd: BulbCommand, colors: seq<(string, string)>, status: Option<Reading>)
    ensures cmd.action == "warm_white" && OrDefault(cmd.warmWhite, 0) == 0 && OrDefault(cmd.brightness, 0) == 0 ==>
              BulbAction(cmd, colors, status) == Send(SendWarmWhite(255))
    ensures cmd.action == "warm_white" && OrDefault(cmd.warmWhite, 0) == 0 && cmd.brightness.Some? && cmd.brightness.value != 0 ==>
              BulbAction(cmd, colors, status) == Send(SendWarmWhite(WarmWhiteLevel(cmd.brightness.value)))
    ensures cmd.action == "color" && cmd.color == Some("warm") && OrDefault(cmd.brightness, 0) == 0 ==>
              BulbAction(cmd, colors, status) == Send(SendWarmWhite(255))
  {
    WarmWhiteLevelRange(100);
    assert Upper("warm") == "WARM";
  }

  /** A colour given as the hex `rgb_to_hex` writes (and not shadowed by a
      preset name) is sent as those channels; with a brightness, each
      channel is dimmed to that percentage. */
  lemma HexColorSent(r: byte, g: byte, b: byte, brightness: Option<int>, colors: seq<(string, string)>, status: Option<Reading>)
    requires forall i | 0 <= i < |colors| :: colors[i].0 != Lower(RgbToHex(r, g, b))
    ensures var a := BulbAction(BulbCommand("color", Some(RgbToHex(r, g, b)), brightness, None), colors, status);
      (brightness.None? ==> a == Send(SendRgb(r, g, b))) &&
      (brightness.Some? ==> a == Send(SendRgb(Dim(r, brightness.value), Dim(g, brightness.value), Dim(b, brightness.value))))
  {
    var hex := RgbToHex(r, g, b);
    assert hex != "" && !IsWarmWhiteWord(Upper(hex)) by {
      RgbToHexFormat(r, g, b);
      assert |Upper(hex)| == 7;
    }
    assert HexToRgb(PresetHex(colors, Lower(hex), hex)) == Some(Rgb(r, g, b)) by {
      PresetHexAbsent(colors, Lower(hex), hex);
      HexRoundTrip(r, g, b);
    }
    ColorCommandSent(hex, Rgb(r, g, b), brightness, colors, status);
  }

  /** A "color" command whose colour is not a warm-white word and resolves
      to `c` sends `c`, dimmed when a brightness is given. */
  lemma ColorCommandSent(color: string, c: Rgb, brightness: Option<int>, colors: seq<(string, string)>,
                         status: Option<Reading>)
    requires color != "" && !IsWarmWhiteWord(Upper(color))
    requires HexToRgb(PresetHex(colors, Lower(color), color)) == Some(c)
    ensures var a := BulbAction(BulbCommand("color", Some(color), brightness, None), colors, status);
      (brightness.None? ==> a == Send(SendRgb(c.r, c.g, c.b))) &&
      (brightness.Some? ==> a == Send(SendRgb(Dim(c.r, brightness.value), Dim(c.g, brightness.value), Dim(c.b, brightness.value))))
  {
  }

  lemma {:induction false} PresetHexAbsent(colors: seq<(string, string)>, key: string, default: string)
    requires forall i | 0 <= i < |colors| :: colors[i].0 != key
    ensures PresetHex(colors, key, default) == default
  {
    if colors != [] {
      assert colors[0].0 != key;
      PresetHexAbsent(colors[1..], key, default);
    }
  }

  /** A preset name (looked up lower-cased) sends the preset's colour. */
  lemma PresetColorSent(colors: seq<(string, string)>, k: nat, r: byte, g: byte, b: byte, status: Option<Reading>)
    requires k < |colors| && colors[k].1 == RgbToHex(r, g, b) && colors[k].0 != ""
    requires Lower(colors[k].0) == colors[k].0 && !IsWarmWhiteWord(Upper(colors[k].0))
    requires forall j | 0 <= j < k :: colors[j].0 != colors[k].0
    ensures BulbAction(BulbCommand("color", Some(colors[k].0), None, None), colors, status) == Send(SendRgb(r, g, b))
  {
    var name := colors[k].0;
    assert HexToRgb(PresetHex(colors, Lower(name), name)) == Some(Rgb(r, g, b)) by {
      PresetHexAt(colors, k, name);
      HexRoundTrip(r, g, b);
    }
    ColorCommandSent(name, Rgb(r, g, b), None, colors, status);
  }

  lemma {:induction false} PresetHexAt(colors: seq<(string, string)>, k: nat, default: string)
    requires k < |colors| && forall j | 0 <= j < k :: colors[j].0 != colors[k].0
    ensures PresetHex(colors, colors[k].0, default) == colors[k].1
  {
    if k > 0 {
      assert colors[0].0 != colors[k].0;
      assert colors[1..][k - 1] == colors[k];
      PresetHexAt(colors[1..], k - 1, default);
    }
  }

  // ---------------------------------------------------------------------
  // Replies

  /** `send_command` succeeds when the device took the frame and
      `bytes(data)` accepted it. */
  predicate Delivered(c: DeviceCommand, accepted: bool)
  {
    accepted && ToWire(FrameOf(c)).Some?
  }

  /** The answer of `POST /bulbs/{name}/command`. */
  datatype Reply = NotFound | BadRequest | ServerError | Updated(status: BulbStatus)

  /** `control_bulb` as written: the 400 for an invalid command is raised
      inside the `try` whose `except Exception` turns every error into a
      500, so the caller never sees the 400. `before` is the status query
      the command read, `after` the one made for the response. */
  function ControlBulbAsWritten(bulbs: map<string, string>, name: string, cmd: BulbCommand,
                                colors: seq<(string, string)>, before: Option<Reading>,
                                accepted: bool, after: Option<Reading>): Reply
  {
    if name !in bulbs then NotFound
    else
      match BulbAction(cmd, colors, before)
      case Send(c) => if Delivered(c, accepted) then Updated(FormatBulbStatus(name, after, colors)) else ServerError
      case _ => ServerError
  }

  /** `control_bulb` with the invalid-command answer it evidently means:
      404 for an unknown bulb, 400 for a command no branch takes, 500 when
      the colour does not parse or the send fails, else the new status. */
  function ControlBulb(bulbs: map<string, string>, name: string, cmd: BulbCommand,
                       colors: seq<(string, string)>, before: Option<Reading>,
                       accepted: bool, after: Option<Reading>): (reply: Reply)
    ensures reply == NotFound <==> name !in bulbs
    ensures reply == BadRequest <==> name in bulbs && BulbAction(cmd, colors, before) == Invalid
  {
    if name !in bulbs then NotFound
    else
      match BulbAction(cmd, colors, before)
      case Send(c) => if Delivered(c, accepted) then Updated(FormatBulbStatus(name, after, colors)) else ServerError
      case Invalid => BadRequest
      case BadColor => ServerError
  }

  /** The written handler never answers 400: an invalid command for a
      known bulb comes back as a 500, where the intended handler says
      400; on every other input the two agree. */
  lemma InvalidCommandAnswers500(bulbs: map<string, string>, name: string, cmd: BulbCommand,
                                 colors: seq<(string, string)>, before: Option<Reading>,
                                 accepted: bool, after: Option<Reading>)
    ensures ControlBulbAsWritten(bulbs, name, cmd, colors, before, accepted, after) != BadRequest
    ensures name in bulbs && BulbAction(cmd, colors, before) == Invalid ==>
              ControlBulbAsWritten(bulbs, name, cmd, colors, before, accepted, after) == ServerError &&
              ControlBulb(bulbs, name, cmd, colors, before, accepted, after) == BadRequest
    ensures !(name in bulbs && BulbAction(cmd, colors, before) == Invalid) ==>
              ControlBulbAsWritten(bulbs, name, cmd, colors, before, accepted, after) ==
              ControlBulb(bulbs, name, cmd, colors, before, accepted, after)
  {
  }

  /** An example of the discrepancy: an unknown action on a known bulb. */
  lemma UnknownActionExample(colors: seq<(string, string)>)
    ensures ControlBulbAsWritten(map["lamp" := "10.0.0.5"], "lamp", BulbCommand("dance", None, None, None),
                                 colors, None, true, None) == ServerError
    ensures ControlBulb(map["lamp" := "10.0.0.5"], "lamp", BulbCommand("dance", None, None, None),
                        colors, None, true, None) == BadRequest
  {
    InvalidExactly(BulbCommand("dance", None, None, None), colors, None);
  }

  /** `control_single_bulb(name, ip, command)`: the new status, or `None`
      for the exception it raises (no branch taken, a colour that does not
      parse, or a failed send). */
  function ControlSingleBulb(name: string, cmd: BulbCommand, colors: seq<(string, string)>,
                             before: Option<Reading>, accepted: bool, after: Option<Reading>): Option<BulbStatus>
  {
    match BulbAction(cmd, colors, before)
    case Send(c) => if Delivered(c, accepted) then Some(FormatBulbStatus(name, after, colors)) else None
    case _ => None
  }

  /** The group helper and the single-bulb handler agree on a known bulb:
      one succeeds with a status exactly when the other does. */
  lemma SingleBulbAgrees(bulbs: map<string, string>, name: string, cmd: BulbCommand,
                         colors: seq<(string, string)>, before: Option<Reading>,
                         accepted: bool, after: Option<Reading>)
    requires name in bulbs
    ensures var r := ControlBulb(bulbs, name, cmd, colors, before, accepted, after);
      var s := ControlSingleBulb(name, cmd, colors, before, accepted, after);
      (s.Some? <==> r.Updated?) && (s.Some? ==> r == Updated(s.value))
  {
  }

  // ---------------------------------------------------------------------
  // Group commands

  /** `[(n, BULBS[n]) for n in names]` for configured names. */
  function Addressed(bulbs: map<string, string>, names: seq<string>): (ps: seq<(string, string)>)
    requires forall x | x in names :: x in bulbs
    ensures |ps| == |names|
  {
    seq(|names|, i requires 0 <= i < |names| => (names[i], bulbs[names[i]]))
  }

  lemma AddressedAppend(bulbs: map<string, string>, a: seq<string>, b: seq<string>)
    requires forall x | x in a + b :: x in bulbs
    ensures Addressed(bulbs, a + b) == Addressed(bulbs, a) + Addressed(bulbs, b)
  {
    assert forall x | x in a :: x in a + b;
    assert forall x | x in b :: x in a + b;
  }

  /** `get_target_bulbs` pairs each bulb the target contributes with its
      address. */
  lemma TargetBulbsAddressed(bulbs: map<string, string>, groups: map<string, seq<string>>, t: string)
    ensures forall x | x in Contribution(bulbs.Keys, groups, t) :: x in bulbs
    ensures GetTargetBulbs(bulbs, groups, t) == Addressed(bulbs, Contribution(bulbs.Keys, groups, t))
  {
  }

  /** A target resolves to nothing exactly when it is not a bulb and is
      either no group or a group none of whose members is configured. */
  lemma TargetUnresolvable(bulbs: map<string, string>, groups: map<string, seq<string>>, t: string)
    ensures GetTargetBulbs(bulbs, groups, t) == [] <==>
              t !in bulbs && (t !in groups || forall x | x in groups[t] :: x !in bulbs)
  {
    TargetBulbsAddressed(bulbs, groups, t);
    if t !in bulbs && t in groups && GetTargetBulbs(bulbs, groups, t) != [] {
      var x := Contribution(bulbs.Keys, groups, t)[0];
      assert x in groups[t] && x in bulbs;
    }
  }

  /** The bulbs a group command reaches, each once, in order of first
      mention, with their addresses. */
  function UniqueTargets(bulbs: map<string, string>, groups: map<string, seq<string>>, targets: seq<string>)
    : (ps: seq<(string, string)>)
    ensures NoDup(ps)
    ensures forall i | 0 <= i < |ps| :: ps[i].0 in bulbs && ps[i].1 == bulbs[ps[i].0]
  {
    var names := Dedup(Expand(bulbs.Keys, groups, targets));
    ExpandKnown(bulbs.Keys, groups, targets);
    DedupElements(Expand(bulbs.Keys, groups, targets));
    var ps := Addressed(bulbs, names);
    assert forall i | 0 <= i < |ps| :: ps[i].0 == names[i];
    ps
  }

  /** How `control_group` resolves its targets. */
  datatype Resolution = TargetNotFound(target: string) | Resolved(pairs: seq<(string, string)>)

  /** The two loops of `control_group` before any command is sent: the
      first target that resolves to nothing is reported, otherwise the
      resolved bulbs are de-duplicated by name keeping first occurrences;
      that is the same list of bulbs `resolve_targets` in
      backend/bulb_manager.py gives. */
  method ControlGroupTargets(bulbs: map<string, string>, groups: map<string, seq<string>>, targets: seq<string>)
    returns (res: Resolution)
    ensures res.TargetNotFound? <==> exists i | 0 <= i < |targets| :: GetTargetBulbs(bulbs, groups, targets[i]) == []
    ensures res.TargetNotFound? ==>
              exists i | 0 <= i < |targets| :: targets[i] == res.target &&
                GetTargetBulbs(bulbs, groups, targets[i]) == [] &&
                forall k | 0 <= k < i :: GetTargetBulbs(bulbs, groups, targets[k]) != []
    ensures res.Resolved? ==> res.pairs == UniqueTargets(bulbs, groups, targets)
  {
    var missing, allBulbs := GatherTargets(bulbs, groups, targets);
    if missing.Some? {
      return TargetNotFound(missing.value);
    }
    var unique := UniqueByName(bulbs, allBulbs, Expand(bulbs.Keys, groups, targets));
    return Resolved(unique);
  }

  /** The first loop: every target's bulbs appended in turn, stopping at
      the first target that resolves to nothing. */
  method GatherTargets(bulbs: map<string, string>, groups: map<string, seq<string>>, targets: seq<string>)
    returns (missing: Option<string>, allBulbs: seq<(string, string)>)
    ensures missing.Some? <==> exists i | 0 <= i < |targets| :: GetTargetBulbs(bulbs, groups, targets[i]) == []
    ensures missing.Some? ==>
              exists i | 0 <= i < |targets| :: targets[i] == missing.value &&
                GetTargetBulbs(bulbs, groups, targets[i]) == [] &&
                forall k | 0 <= k < i :: GetTargetBulbs(bulbs, groups, targets[k]) != []
    ensures missing.None? ==>
              (forall x | x in Expand(bulbs.Keys, groups, targets) :: x in bulbs) &&
              allBulbs == Addressed(bulbs, Expand(bulbs.Keys, groups, targets))
  {
    var known := bulbs.Keys;
    allBulbs := [];
    var i := 0;
    while i < |targets|
      invariant 0 <= i <= |targets|
      invariant forall k | 0 <= k < i :: GetTargetBulbs(bulbs, groups, targets[k]) != []
      invariant forall x | x in Expand(known, groups, targets[..i]) :: x in bulbs
      invariant allBulbs == Addressed(bulbs, Expand(known, groups, targets[..i]))
    {
      var found := GetTargetBulbs(bulbs, groups, targets[i]);
      if found == [] {
        return Some(targets[i]), allBulbs;
      }
      GatherStep(bulbs, groups, targets, i);
      allBulbs := allBulbs + found;
      i := i + 1;
    }
    assert targets[..i] == targets;
    missing := None;
  }

  /** Gathering one more target appends its bulbs with their addresses. */
  lemma GatherStep(bulbs: map<string, string>, groups: map<string, seq<string>>, targets: seq<string>, i: nat)
    requires i < |targets| && forall x | x in Expand(bulbs.Keys, groups, targets[..i]) :: x in bulbs
    ensures forall x | x in Expand(bulbs.Keys, groups, targets[..i + 1]) :: x in bulbs
    ensures Addressed(bulbs, Expand(bulbs.Keys, groups, targets[..i + 1])) ==
              Addressed(bulbs, Expand(bulbs.Keys, groups, targets[..i])) + GetTargetBulbs(bulbs, groups, targets[i])
  {
    var known := bulbs.Keys;
    TargetBulbsAddressed(bulbs, groups, targets[i]);
    assert targets[..i + 1] == targets[..i] + [targets[i]];
    ExpandSnoc(known, groups, targets[..i], targets[i]);
    AddressedAppend(bulbs, Expand(known, groups, targets[..i]), Contribution(known, groups, targets[i]));
  }

  /** The second loop: a pair is kept when its name was not seen before. */
  method UniqueByName(bulbs: map<string, string>, allBulbs: seq<(string, string)>, ghost names: seq<string>)
    returns (unique: seq<(string, string)>)
    requires forall x | x in names :: x in bulbs
    requires allBulbs == Addressed(bulbs, names)
    ensures forall x | x in Dedup(names) :: x in bulbs
    ensures unique == Addressed(bulbs, Dedup(names))
  {
    unique := [];
    var seen: set<string> := {};
    var j := 0;
    assert names[..0] == [];
    while j < |allBulbs|
      invariant 0 <= j <= |allBulbs| == |names|
      invariant forall x | x in Dedup(names[..j]) :: x in bulbs
      invariant unique == Addressed(bulbs, Dedup(names[..j]))
      invariant forall y :: y in seen <==> y in names[..j]
    {
      var name := allBulbs[j].0;
      ghost var prefix := names[..j];
      assert name == names[j] && allBulbs[j] == (name, bulbs[name]);
      assert names[..j + 1] == prefix + [name];
      DedupStep(prefix, name, Dedup(prefix), seen);
      assert forall x | x in Dedup(prefix + [name]) :: x in bulbs by {
        DedupElements(prefix + [name]);
      }
      if name !in seen {
        assert Addressed(bulbs, Dedup(prefix) + [name]) == unique + [allBulbs[j]] by {
          AddressedAppend(bulbs, Dedup(prefix), [name]);
        }
        unique := unique + [allBulbs[j]];
        seen := seen + {name};
      }
      j := j + 1;
    }
    assert names[..j] == names;
    DedupElements(names);
  }

  /** The summary `control_group` returns: the statuses of the bulbs that
      succeeded and the names of those that failed, in resolution order. */
  datatype GroupReport = GroupReport(updated: seq<BulbStatus>, errors: seq<string>)

  function Report(unique: seq<(string, string)>, results: seq<Option<BulbStatus>>): (rep: GroupReport)
    requires |results| == |unique|
    ensures |rep.updated| + |rep.errors| == |unique|
    ensures forall i | 0 <= i < |unique| :: results[i].None? ==> unique[i].0 in rep.errors
    ensures forall i | 0 <= i < |unique| :: results[i].Some? ==> results[i].value in rep.updated
  {
    if unique == [] then GroupReport([], [])
    else
      var n := |unique| - 1;
      var rep := Report(unique[..n], results[..n]);
      assert forall i | 0 <= i < n :: unique[..n][i] == unique[i] && results[..n][i] == results[i];
      if results[n].Some? then GroupReport(rep.updated + [results[n].value], rep.errors)
      else GroupReport(rep.updated, rep.errors + [unique[n].0])
  }

  /** The report keeps the resolution order: one more bulb adds its status at
      the end of `updated`, or its name at the end of `errors`, and leaves
      the earlier entries as they were. */
  lemma ReportSnoc(unique: seq<(string, string)>, results: seq<Option<BulbStatus>>,
                   u: (string, string), x: Option<BulbStatus>)
    requires |results| == |unique|
    ensures var before := Report(unique, results);
      Report(unique + [u], results + [x]) ==
        if x.Some? then GroupReport(before.updated + [x.value], before.errors)
        else GroupReport(before.updated, before.errors + [u.0])
  {
    assert (unique + [u])[..|unique|] == unique;
    assert (results + [x])[..|results|] == results;
  }
}
