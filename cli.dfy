// The command-line tool led.py: the brightness arithmetic, the "brightness
// only" decision that keeps the current colour, the colour commands, the
// status line and the argument parser. Sockets are gone: what the bulb
// answered to the status query is an input (decoded by
// `Protocol.QueryStatus`), and a command is what the tool would send.

module Cli {
  import opened Common
  import opened Text
  import opened Protocol
  import opened ColorMath
  import opened Targets

  /** One command to one bulb, before framing. */
  datatype DeviceCommand = SendPower(on: bool) | SendRgb(r: int, g: int, b: int) | SendWarmWhite(w: int)

  /** The frame `power_on`/`power_off`, `set_rgb` or `set_warm_white`
      builds for a command. */
  function FrameOf(cmd: DeviceCommand): seq<int>
  {
    match cmd
    case SendPower(on) => PowerFrame(on)
    case SendRgb(r, g, b) => RgbFrame(r, g, b)
    case SendWarmWhite(w) => WarmWhiteFrame(w)
  }

  /** Every value of the command is a byte. */
  predicate ByteCommand(cmd: DeviceCommand)
  {
    match cmd
    case SendPower(_) => true
    case SendRgb(r, g, b) => 0 <= r < 256 && 0 <= g < 256 && 0 <= b < 256
    case SendWarmWhite(w) => 0 <= w < 256
  }

  /** `send_command` gets past `bytes(data)` exactly for byte commands: any
      other value makes the send fail before anything is written. */
  lemma FrameSendable(cmd: DeviceCommand)
    ensures ToWire(FrameOf(cmd)).Some? <==> ByteCommand(cmd)
  {
    match cmd
    case SendPower(on) => PowerFrameBytes(on);
    case SendRgb(r, g, b) => RgbFrameBytes(r, g, b);
    case SendWarmWhite(w) => WarmWhiteFrameBytes(w);
  }

  // ---------------------------------------------------------------------
  // Brightness

  /** One channel of `apply_brightness_to_rgb`: `int(c * (p / 100.0))`. */
  function Dim(c: int, p: int): int
  {
    Trunc(c as real * (p as real / 100.0))
  }

  /** `apply_brightness_to_rgb(r, g, b, p)`. */
  function ApplyBrightness(r: int, g: int, b: int, p: int): Rgb
  {
    Rgb(Dim(r, p), Dim(g, p), Dim(b, p))
  }

  /** For a byte and a percentage, dimming never brightens, 100 % keeps the
      channel and 0 % turns it off; it is monotone in both arguments. */
  lemma DimFacts(c: byte, p: int)
    requires 0 <= p <= 100
    ensures 0 <= Dim(c, p) <= c
    ensures Dim(c, 100) == c && Dim(c, 0) == 0
    ensures forall d: byte | c <= d :: Dim(c, p) <= Dim(d, p)
    ensures forall q | p <= q :: Dim(c, p) <= Dim(c, q)
  {
    DimRange(c, p);
    assert 100 as real / 100.0 == 1.0 && 0 as real / 100.0 == 0.0;
    TruncOfInt(c);
    TruncOfInt(0);
    forall d: byte | c <= d ensures Dim(c, p) <= Dim(d, p) {
      DimMonotone(c, d, p, p);
    }
    forall q | p <= q ensures Dim(c, p) <= Dim(c, q) {
      DimMonotone(c, c, p, q);
    }
  }

  /** A brighter channel or a larger percentage never dims more. */
  lemma DimMonotone(c: int, d: int, p: int, q: int)
    requires 0 <= c <= d && 0 <= p <= q
    ensures Dim(c, p) <= Dim(d, q)
  {
    var f, g := p as real / 100.0, q as real / 100.0;
    assert 0.0 <= f <= g;
    TruncProductMonotone(c as real, f, d as real, g, Dim(c, p), Dim(d, q));
  }

  /** Truncating a product of non-negative factors is monotone in both. */
  lemma TruncProductMonotone(a: real, b: real, x: real, y: real, m: int, n: int)
    requires 0.0 <= a <= x && 0.0 <= b <= y
    requires m == Trunc(a * b) && n == Trunc(x * y)
    ensures m <= n
  {
    ProductMonotone(a, b, x, y, a * b, x * y);
    TruncMonotone(a * b, x * y);
  }

  /** A product of non-negative factors is monotone in both. */
  lemma ProductMonotone(a: real, b: real, x: real, y: real, u: real, v: real)
    requires 0.0 <= a <= x && 0.0 <= b <= y && u == a * b && v == x * y
    ensures u <= v
  {
    MulMonotone(b, a, x);
    MulMonotone(x, b, y);
  }

  /** A dimmed byte lies between 0 and the byte. */
  lemma DimRange(c: byte, p: int)
    requires 0 <= p <= 100
    ensures 0 <= Dim(c, p) <= c
  {
    var f := p as real / 100.0;
    var u := c as real * f;
    ProductMonotone(0.0, f, c as real, f, 0.0, u);
    ProductMonotone(c as real, f, c as real, 1.0, u, c as real);
    TruncMonotone(0.0, u);
    TruncMonotone(u, c as real);
    TruncOfInt(0);
    TruncOfInt(c);
  }

  /** Dimming commutes with taking the brightest channel. */
  lemma DimMax(r: byte, g: byte, b: byte, p: int)
    requires 0 <= p <= 100
    ensures Max3(Dim(r, p), Dim(g, p), Dim(b, p)) == Dim(Max3(r, g, b), p)
  {
    DimFacts(r, p);
    DimFacts(g, p);
    DimFacts(b, p);
  }

  /** `apply_brightness_to_rgb` on a byte colour and a percentage: no
      channel gets brighter, 100 % keeps the colour and 0 % turns it black,
      and the brightest channel of the result is the dimmed brightest
      channel. */
  lemma ApplyBrightnessFacts(r: byte, g: byte, b: byte, p: int)
    requires 0 <= p <= 100
    ensures var d := ApplyBrightness(r, g, b, p);
      0 <= d.r <= r && 0 <= d.g <= g && 0 <= d.b <= b && Max3(d.r, d.g, d.b) == Dim(Max3(r, g, b), p)
    ensures ApplyBrightness(r, g, b, 100) == Rgb(r, g, b) && ApplyBrightness(r, g, b, 0) == Rgb(0, 0, 0)
  {
    DimFacts(r, p);
    DimFacts(g, p);
    DimFacts(b, p);
    DimMax(r, g, b, p);
  }

  /** One channel of `get_full_brightness_color`:
      `min(255, int(c * (255.0 / m)))`. */
  function Rescale(c: int, m: int): int
    requires m > 0
  {
    var x := Trunc(c as real * (255.0 / m as real));
    if x < 255 then x else 255
  }

  /** `get_full_brightness_color(status)`: no colour in warm-white mode,
      white for a black reading, otherwise the reading scaled up until its
      brightest channel is 255. */
  function FullBrightnessColor(st: Reading): (c: Option<Rgb>)
    ensures c.None? <==> st.warmWhite > 0
  {
    if st.warmWhite > 0 then None
    else
      var m := Max3(st.red, st.green, st.blue);
      if m == 0 then Some(Rgb(255, 255, 255))
      else Some(Rgb(Rescale(st.red, m), Rescale(st.green, m), Rescale(st.blue, m)))
  }

  /** Rescaling a channel no brighter than the brightest gives a byte no
      darker than the channel; the brightest channel itself becomes 255. */
  lemma RescaleFacts(c: byte, m: byte)
    requires 0 < m && c <= m
    ensures c <= Rescale(c, m) <= 255
    ensures c == m ==> Rescale(c, m) == 255
    ensures c == 0 ==> Rescale(c, m) == 0
  {
    var x := c as real * (255.0 / m as real);
    RescaleBounds(c as real, m as real, x);
    TruncMonotone(c as real, x);
    TruncMonotone(x, 255.0);
    TruncOfInt(c);
    TruncOfInt(255);
    TruncOfInt(0);
  }

  /** Over the reals, `c * (255 / m)` lies between c and 255 for
      `0 <= c <= m`, and reaches 255 at `c == m`. */
  lemma RescaleBounds(cr: real, mr: real, x: real)
    requires 0.0 <= cr <= mr && 0.0 < mr <= 255.0 && x == cr * (255.0 / mr)
    ensures cr <= x <= 255.0
    ensures cr == mr ==> x == 255.0
    ensures cr == 0.0 ==> x == 0.0
  {
    var k := 255.0 / mr;
    QuotientAtLeastOne(255.0, mr);
    MulDiv(255.0, mr);
    ProductMonotone(cr, 1.0, cr, k, cr, x);
    ProductMonotone(cr, k, mr, k, x, 255.0);
  }

  /** Dividing by a positive number no larger than the dividend gives at
      least one. */
  lemma QuotientAtLeastOne(n: real, d: real)
    requires 0.0 < d <= n
    ensures n / d >= 1.0
  {
    assert n / d * d == n;
  }

  /** The full-brightness colour of an RGB reading is a byte colour whose
      brightest channel is 255, each channel no darker than the reading's;
      a black reading gives white. */
  lemma FullBrightnessFacts(st: Reading)
    requires st.warmWhite == 0
    ensures var c := FullBrightnessColor(st).value;
      IsByteColor(c) && Max3(c.r, c.g, c.b) == 255 &&
      st.red <= c.r && st.green <= c.g && st.blue <= c.b &&
      (Max3(st.red, st.green, st.blue) == 0 ==> c == Rgb(255, 255, 255))
  {
    var m := Max3(st.red, st.green, st.blue);
    if m > 0 {
      RescaleFacts(st.red, m);
      RescaleFacts(st.green, m);
      RescaleFacts(st.blue, m);
    }
  }

  /** `int((p * 255) / 100)`: a percentage as a warm-white byte. */
  function WarmWhiteLevel(p: int): int
  {
    TruncDiv(p * 255, 100)
  }

  lemma WarmWhiteLevelRange(p: int)
    requires 0 <= p <= 100
    ensures 0 <= WarmWhiteLevel(p) < 256
    ensures WarmWhiteLevel(100) == 255 && WarmWhiteLevel(0) == 0
  {
  }

  /** White at `p` percent. */
  function DimWhite(p: int): DeviceCommand
  {
    var w := ApplyBrightness(255, 255, 255, p);
    SendRgb(w.r, w.g, w.b)
  }

  /** The command `set_brightness_only(p)` sends, given what `query_status`
      returned: white when the bulb is off or did not answer, the scaled
      warm-white byte in warm-white mode, else the full-brightness colour
      dimmed to `p`. */
  function BrightnessOnly(status: Option<Reading>, p: int): DeviceCommand
  {
    if status.None? || !status.value.on then DimWhite(p)
    else if status.value.warmWhite > 0 then SendWarmWhite(WarmWhiteLevel(p))
    else
      match FullBrightnessColor(status.value)
      case Some(c) =>
        var d := ApplyBrightness(c.r, c.g, c.b, p);
        SendRgb(d.r, d.g, d.b)
      case None => DimWhite(p)
  }

  /** For a percentage, the command keeps the mode and sets the brightness:
      off or unreachable gives white at `p`; warm white stays warm white at
      `p`; an RGB colour keeps its channels' order and its brightest channel
      goes to `p` percent of 255, so 100 % restores the full-brightness
      colour. The command is always sendable. */
  lemma BrightnessOnlyFacts(status: Option<Reading>, p: int)
    requires 0 <= p <= 100
    ensures var cmd := BrightnessOnly(status, p);
      ByteCommand(cmd) &&
      (status.None? || !status.value.on ==> cmd == SendRgb(Dim(255, p), Dim(255, p), Dim(255, p))) &&
      (status.Some? && status.value.on && status.value.warmWhite > 0 ==> cmd == SendWarmWhite(WarmWhiteLevel(p))) &&
      (status.Some? && status.value.on && status.value.warmWhite == 0 ==>
         cmd.SendRgb? && Max3(cmd.r, cmd.g, cmd.b) == Dim(255, p) &&
         (p == 100 ==> Some(Rgb(cmd.r, cmd.g, cmd.b)) == FullBrightnessColor(status.value)))
  {
    DimFacts(255, p);
    WarmWhiteLevelRange(p);
    if status.Some? && status.value.on && status.value.warmWhite == 0 {
      var st := status.value;
      FullBrightnessFacts(st);
      var c := FullBrightnessColor(st).value;
      DimFacts(c.r as byte, p);
      DimFacts(c.g as byte, p);
      DimFacts(c.b as byte, p);
      DimMax(c.r as byte, c.g as byte, c.b as byte, p);
    }
  }

  // ---------------------------------------------------------------------
  // Colour commands

  /** `set_color(color_hex)`: "WW" in any case is full warm white; anything
      else is read by `hex_to_rgb`, and `None` is the ValueError it raises
      on a malformed string. */
  function SetColor(colorHex: string): Option<DeviceCommand>
  {
    if Upper(colorHex) == "WW" then Some(SendWarmWhite(255))
    else
      match HexToRgb(colorHex)
      case Some(c) => Some(SendRgb(c.r, c.g, c.b))
      case None => None
  }

  /** `set_color_with_brightness(color_hex, p)`. */
  function SetColorWithBrightness(colorHex: string, p: int): Option<DeviceCommand>
  {
    if Upper(colorHex) == "WW" then Some(SendWarmWhite(WarmWhiteLevel(p)))
    else
      match HexToRgb(colorHex)
      case Some(c) =>
        var d := ApplyBrightness(c.r, c.g, c.b, p);
        Some(SendRgb(d.r, d.g, d.b))
      case None => None
  }

  /** `set_color` sends what `rgb_to_hex` wrote. */
  lemma SetColorRoundTrip(r: byte, g: byte, b: byte)
    ensures SetColor(RgbToHex(r, g, b)) == Some(SendRgb(r, g, b))
  {
    RgbToHexFormat(r, g, b);
    HexRoundTrip(r, g, b);
    SetColorOfHex(RgbToHex(r, g, b), Rgb(r, g, b));
  }

  lemma SetColorOfHex(s: string, c: Rgb)
    requires |s| != 2 && HexToRgb(s) == Some(c)
    ensures SetColor(s) == Some(SendRgb(c.r, c.g, c.b))
  {
    assert |Upper(s)| != 2;
  }

  /** "WW" in any case means full warm white. */
  lemma SetColorWarmWhite()
    ensures SetColor("ww") == Some(SendWarmWhite(255)) && SetColor("wW") == Some(SendWarmWhite(255))
  {
    assert Upper("ww") == "WW" && Upper("wW") == "WW";
  }

  /** With 100 % the two colour commands agree on every string; with any
      percentage they fail on the same strings and send only bytes. */
  lemma SetColorWithBrightnessAgrees(colorHex: string, p: int)
    requires 0 <= p <= 100
    ensures SetColorWithBrightness(colorHex, 100) == SetColor(colorHex)
    ensures SetColorWithBrightness(colorHex, p).None? <==> SetColor(colorHex).None?
    ensures SetColorWithBrightness(colorHex, p).Some? ==> ByteCommand(SetColorWithBrightness(colorHex, p).value)
  {
    WarmWhiteLevelRange(p);
    var c := HexToRgb(colorHex);
    if c.Some? {
      DimFacts(c.value.r as byte, p);
      DimFacts(c.value.g as byte, p);
      DimFacts(c.value.b as byte, p);
    }
  }

  // ---------------------------------------------------------------------
  // Targets and the status line

  /** `get_target_bulbs(target)` over the `bulbs` (name to address) and
      `groups` of the configuration. */
  function GetTargetBulbs(bulbs: map<string, string>, groups: map<string, seq<string>>, target: string)
    : (pairs: seq<(string, string)>)
    ensures forall i | 0 <= i < |pairs| :: pairs[i].0 in bulbs && pairs[i].1 == bulbs[pairs[i].0]
  {
    var names := Contribution(bulbs.Keys, groups, target);
    seq(|names|, i requires 0 <= i < |names| && names[i] in bulbs => (names[i], bulbs[names[i]]))
  }

  /** A bulb name gives that bulb (even when a group has the same name); a
      group gives its configured members in group order, unknown members
      dropped; anything else gives nothing. */
  lemma GetTargetBulbsCases(bulbs: map<string, string>, groups: map<string, seq<string>>, target: string)
    ensures target in bulbs ==> GetTargetBulbs(bulbs, groups, target) == [(target, bulbs[target])]
    ensures target !in bulbs && target in groups ==>
              forall x :: (exists i | 0 <= i < |GetTargetBulbs(bulbs, groups, target)| ::
                             GetTargetBulbs(bulbs, groups, target)[i].0 == x) <==>
                          x in groups[target] && x in bulbs
    ensures target !in bulbs && target !in groups ==> GetTargetBulbs(bulbs, groups, target) == []
  {
    if target !in bulbs && target in groups {
      var names := Configured(bulbs.Keys, groups[target]);
      var pairs := GetTargetBulbs(bulbs, groups, target);
      forall x ensures (exists i | 0 <= i < |pairs| :: pairs[i].0 == x) <==> x in groups[target] && x in bulbs {
        if x in names {
          var i :| 0 <= i < |names| && names[i] == x;
          assert pairs[i].0 == x;
        }
      }
    }
  }

  /** The first preset (in configuration order) whose value, upper-cased,
      equals `key`. */
  function PresetFor(colors: seq<(string, string)>, key: string): (name: Option<string>)
  {
    if colors == [] then None
    else if Upper(colors[0].1) == key then Some(colors[0].0)
    else PresetFor(colors[1..], key)
  }

  /** `PresetFor` finds the first matching preset, and nothing when no
      preset matches. */
  lemma {:induction false} PresetForFirst(colors: seq<(string, string)>, key: string)
    ensures PresetFor(colors, key).None? <==> forall i | 0 <= i < |colors| :: Upper(colors[i].1) != key
    ensures PresetFor(colors, key).Some? ==>
              exists k | 0 <= k < |colors| ::
                Upper(colors[k].1) == key && PresetFor(colors, key).value == colors[k].0 &&
                forall j | 0 <= j < k :: Upper(colors[j].1) != key
  {
    if colors != [] && Upper(colors[0].1) != key {
      PresetForFirst(colors[1..], key);
      if PresetFor(colors, key).Some? {
        var k :| 0 <= k < |colors[1..]| && Upper(colors[1..][k].1) == key &&
                 PresetFor(colors[1..], key).value == colors[1..][k].0 &&
                 forall j | 0 <= j < k :: Upper(colors[1..][j].1) != key;
        assert Upper(colors[k + 1].1) == key;
        forall j | 0 <= j < k + 1 ensures Upper(colors[j].1) != key {
          if j > 0 {
            assert colors[j] == colors[1..][j - 1];
          }
        }
      } else {
        forall i | 0 <= i < |colors| ensures Upper(colors[i].1) != key {
          if i > 0 {
            assert colors[i] == colors[1..][i - 1];
          }
        }
      }
    }
  }

  /** The preset at the first index whose value matches is the one found. */
  lemma {:induction false} PresetForAt(colors: seq<(string, string)>, key: string, k: nat)
    requires k < |colors| && Upper(colors[k].1) == key
    requires forall j | 0 <= j < k :: Upper(colors[j].1) != key
    ensures PresetFor(colors, key) == Some(colors[k].0)
  {
    if k > 0 {
      assert Upper(colors[0].1) != key;
      forall j | 0 <= j < k - 1 ensures Upper(colors[1..][j].1) != key {
        assert colors[1..][j] == colors[j + 1];
      }
      PresetForAt(colors[1..], key, k - 1);
    }
  }

  /** `int((x * 100) / 255)`: a byte as a percentage. */
  function Percent(x: byte): (p: nat)
    ensures p <= 100
    ensures p == 100 <==> x == 255
  {
    (x * 100) / 255
  }

  /** `format_status(name, status)`; `colors` is the preset table in
      configuration order. */
  function FormatStatus(name: string, status: Option<Reading>, colors: seq<(string, string)>): string
  {
    match status
    case None => name + " UNREACHABLE"
    case Some(st) =>
      if !st.on then name + " OFF"
      else if st.warmWhite > 0 then name + " warm white " + Decimal(Percent(st.warmWhite)) + "%"
      else
        var hex := RgbToHex(st.red, st.green, st.blue);
        var preset := PresetFor(colors, hex);
        var shown := if preset.Some? then preset.value else hex;
        name + " " + shown + " " + Decimal(Percent(Max3(st.red, st.green, st.blue) as byte)) + "%"
  }

  /** The status line of an RGB reading names the colour by its first
      matching preset, or else by a hex string that reads back as the
      reading's channels. */
  lemma FormatStatusColor(name: string, st: Reading, colors: seq<(string, string)>)
    requires st.on && st.warmWhite == 0
    ensures var hex := RgbToHex(st.red, st.green, st.blue);
      var pct := Decimal(Percent(Max3(st.red, st.green, st.blue) as byte));
      HexToRgb(hex) == Some(Rgb(st.red, st.green, st.blue)) &&
      FormatStatus(name, Some(st), colors) ==
        name + " " + (if PresetFor(colors, hex).Some? then PresetFor(colors, hex).value else hex) + " " + pct + "%"
  {
    HexRoundTrip(st.red, st.green, st.blue);
  }

  /** The percentage of a status line is a digit string that reads back as
      the byte's share of 100, truncated; it is 100 exactly at 255. */
  lemma PercentText(x: byte)
    ensures IsDigits(Decimal(Percent(x)))
    ensures DecimalValue(Decimal(Percent(x))) == x * 100 / 255
    ensures DecimalValue(Decimal(Percent(x))) == 100 <==> x == 255
  {
    DecimalRoundTrip(Percent(x));
  }

  /** The other lines: unreachable, off, and warm white. */
  lemma FormatStatusOther(name: string, st: Reading, colors: seq<(string, string)>)
    ensures FormatStatus(name, None, colors) == name + " UNREACHABLE"
    ensures !st.on ==> FormatStatus(name, Some(st), colors) == name + " OFF"
    ensures st.on && st.warmWhite > 0 ==>
              FormatStatus(name, Some(st), colors) == name + " warm white " + Decimal(Percent(st.warmWhite)) + "%"
  {
  }

  // ---------------------------------------------------------------------
  // Arguments

  /** What `parse_args` returns: `(None, None, None)` (usage) or a target
      with a command. */
  datatype Parsed = Usage | Run(target: string, command: CliCommand)

  datatype CliCommand =
    | Toggle | PowerOn | PowerOff | ShowStatus
    | Color(color: string) | Brightness(percent: int) | ColorBrightness(color: string, percent: int)

  /** How the loop reads one argument. */
  datatype Token = Level(percent: int) | Paint(color: string) | Unknown

  /** The branches of the loop body, in order: digits first (clamped to
      0..100), then `#` plus six characters, `0x` plus six, six bare hex
      digits, a preset name; the `#` and `0x` forms are not hex-checked. */
  function ClassifyToken(arg: string, colors: map<string, string>): Token
  {
    if IsDigits(arg) then Level(Clamp(DecimalValue(arg), 100))
    else if StartsWith(arg, "#") && |arg| == 7 then Paint(arg)
    else if StartsWith(arg, "0x") && |arg| == 8 then Paint("#" + arg[2..])
    else if |arg| == 6 && forall i | 0 <= i < 6 :: IsHexChar(arg[i]) then Paint("#" + arg)
    else if Lower(arg) in colors then Paint(colors[Lower(arg)])
    else Unknown
  }

  /** `(color, brightness)` after the loop has read `tokens`, or `None`
      once an unknown token made it return. */
  function Scan(tokens: seq<string>, colors: map<string, string>): Option<(Option<string>, Option<int>)>
  {
    if tokens == [] then Some((None, None))
    else
      match Scan(tokens[..|tokens| - 1], colors)
      case None => None
      case Some(acc) =>
        match ClassifyToken(tokens[|tokens| - 1], colors)
        case Level(p) => Some((acc.0, Some(p)))
        case Paint(c) => Some((Some(c), acc.1))
        case Unknown => None
  }

  /** The final `if`: a colour counts only when it is a non-empty string. */
  function Decide(color: Option<string>, brightness: Option<int>): CliCommand
  {
    if color.Some? && color.value != "" && brightness.Some? then ColorBrightness(color.value, brightness.value)
    else if color.Some? && color.value != "" then Color(color.value)
    else if brightness.Some? then Brightness(brightness.value)
    else Toggle
  }

  /** `parse_args(args)` as a function of the arguments. */
  function ParseSpec(args: seq<string>, colors: map<string, string>): Parsed
  {
    if args == [] then Usage
    else if |args| == 1 then Run(args[0], Toggle)
    else if Lower(args[1]) == "on" then Run(args[0], PowerOn)
    else if Lower(args[1]) == "off" then Run(args[0], PowerOff)
    else if Lower(args[1]) == "status" then Run(args[0], ShowStatus)
    else
      match Scan(args[1..], colors)
      case None => Usage
      case Some(acc) => Run(args[0], Decide(acc.0, acc.1))
  }

  /** `parse_args(args)`. */
  method ParseArgs(args: seq<string>, colors: map<string, string>) returns (parsed: Parsed)
    ensures parsed == ParseSpec(args, colors)
  {
    if |args| == 0 {
      return Usage;
    }
    var target := args[0];
    if |args| == 1 {
      return Run(target, Toggle);
    }
    var first := Lower(args[1]);
    if first == "on" {
      return Run(target, PowerOn);
    } else if first == "off" {
      return Run(target, PowerOff);
    } else if first == "status" {
      return Run(target, ShowStatus);
    }
    var rest := args[1..];
    var color: Option<string> := None;
    var brightness: Option<int> := None;
    var i := 0;
    while i < |rest|
      invariant 0 <= i <= |rest|
      invariant Scan(rest[..i], colors) == Some((color, brightness))
    {
      var arg := rest[i];
      ghost var token := ClassifyToken(arg, colors);
      assert Scan(rest[..i + 1], colors) == match token
        case Level(p) => Some((color, Some(p)))
        case Paint(c) => Some((Some(c), brightness))
        case Unknown => None
      by {
        assert rest[..i + 1][..i] == rest[..i];
      }
      if IsDigits(arg) {
        brightness := Some(Clamp(DecimalValue(arg), 100));
      } else if StartsWith(arg, "#") && |arg| == 7 {
        color := Some(arg);
      } else if StartsWith(arg, "0x") && |arg| == 8 {
        color := Some("#" + arg[2..]);
      } else if |arg| == 6 && forall k | 0 <= k < 6 :: IsHexChar(arg[k]) {
        color := Some("#" + arg);
      } else if Lower(arg) in colors {
        color := Some(colors[Lower(arg)]);
      } else {
        UnknownTokenRejects(rest, colors, i);
        return Usage;
      }
      i := i + 1;
    }
    assert rest[..i] == rest;
    parsed := Run(target, Decide(color, brightness));
  }

  /** One unknown argument anywhere makes the whole parse fail. */
  lemma {:induction false} UnknownTokenRejects(tokens: seq<string>, colors: map<string, string>, i: nat)
    requires i < |tokens| && ClassifyToken(tokens[i], colors) == Unknown
    ensures Scan(tokens, colors) == None
  {
    var k := |tokens| - 1;
    if i < k {
      assert tokens[..k][i] == tokens[i];
      UnknownTokenRejects(tokens[..k], colors, i);
    }
  }

  /** A later brightness overrides an earlier one: the parsed brightness is
      the one of the last digit argument. */
  lemma {:induction false} LastLevelWins(tokens: seq<string>, colors: map<string, string>, i: nat)
    requires Scan(tokens, colors).Some?
    requires i < |tokens| && ClassifyToken(tokens[i], colors).Level?
    requires forall j | i < j < |tokens| :: !ClassifyToken(tokens[j], colors).Level?
    ensures Scan(tokens, colors).value.1 == Some(ClassifyToken(tokens[i], colors).percent)
  {
    var k := |tokens| - 1;
    if i < k {
      forall j | i < j < k ensures !ClassifyToken(tokens[..k][j], colors).Level? {
        assert tokens[..k][j] == tokens[j];
      }
      assert tokens[..k][i] == tokens[i];
      LastLevelWins(tokens[..k], colors, i);
    }
  }

  /** Likewise the parsed colour is the one of the last colour argument. */
  lemma {:induction false} LastPaintWins(tokens: seq<string>, colors: map<string, string>, i: nat)
    requires Scan(tokens, colors).Some?
    requires i < |tokens| && ClassifyToken(tokens[i], colors).Paint?
    requires forall j | i < j < |tokens| :: !ClassifyToken(tokens[j], colors).Paint?
    ensures Scan(tokens, colors).value.0 == Some(ClassifyToken(tokens[i], colors).color)
  {
    var k := |tokens| - 1;
    if i < k {
      forall j | i < j < k ensures !ClassifyToken(tokens[..k][j], colors).Paint? {
        assert tokens[..k][j] == tokens[j];
      }
      assert tokens[..k][i] == tokens[i];
      LastPaintWins(tokens[..k], colors, i);
    }
  }

  /** Every brightness the loop keeps is a percentage. */
  lemma {:induction false} ScanLevelRange(tokens: seq<string>, colors: map<string, string>)
    requires Scan(tokens, colors).Some? && Scan(tokens, colors).value.1.Some?
    ensures 0 <= Scan(tokens, colors).value.1.value <= 100
  {
    var k := |tokens| - 1;
    if !ClassifyToken(tokens[k], colors).Level? {
      ScanLevelRange(tokens[..k], colors);
    }
  }

  /** One step of the scan: the last token decides how the result changes. */
  lemma ScanLast(prefix: seq<string>, t: string, colors: map<string, string>)
    ensures Scan(prefix + [t], colors) ==
      match Scan(prefix, colors)
      case None => None
      case Some(acc) =>
        match ClassifyToken(t, colors)
        case Level(p) => Some((acc.0, Some(p)))
        case Paint(c) => Some((Some(c), acc.1))
        case Unknown => None
  {
    assert (prefix + [t])[..|prefix + [t]| - 1] == prefix;
  }

  /** Past the explicit commands, the parse is the scan of the remaining
      arguments. */
  lemma ParseTokens(args: seq<string>, colors: map<string, string>)
    requires |args| >= 2 && Lower(args[1]) != "on" && Lower(args[1]) != "off" && Lower(args[1]) != "status"
    ensures ParseSpec(args, colors) ==
      match Scan(args[1..], colors)
      case None => Usage
      case Some(acc) => Run(args[0], Decide(acc.0, acc.1))
  {
  }

  lemma ClassifySixDigits(colors: map<string, string>)
    ensures ClassifyToken("123456", colors) == Level(100)
  {
    assert IsDigits("123456");
    assert DecimalValue("123456") == 123456 by {
      assert "123456"[..5] == "12345" && "12345"[..4] == "1234" && "1234"[..3] == "123";
      assert "123"[..2] == "12" && "12"[..1] == "1" && "1"[..0] == "";
    }
  }

  /** The scan of a single token. */
  lemma ScanOne(t: string, colors: map<string, string>)
    ensures Scan([t], colors) ==
      match ClassifyToken(t, colors)
      case Level(p) => Some((None, Some(p)))
      case Paint(c) => Some((Some(c), None))
      case Unknown => None
  {
    ScanLast([], t, colors);
    assert [] + [t] == [t];
  }

  /** Six decimal digits are a brightness (clamped to 100), not a bare
      hex colour: the digit test comes first. */
  lemma DigitsBeforeHex(colors: map<string, string>)
    ensures ClassifyToken("123456", colors) == Level(100)
    ensures ParseSpec(["lamp", "123456"], colors) == Run("lamp", Brightness(100))
  {
    ClassifySixDigits(colors);
    ScanOne("123456", colors);
    assert ["lamp", "123456"][1..] == ["123456"];
    assert Lower("123456") != "status" by {
      assert Lower("123456")[0] == '1';
    }
    ParseTokens(["lamp", "123456"], colors);
  }

  /** The explicit commands are matched in any case and ignore the rest of
      the line; a lone target toggles; no arguments at all is usage. */
  lemma ExplicitCommands(colors: map<string, string>)
    ensures ParseSpec(["lamp", "ON", "#FF0000"], colors) == Run("lamp", PowerOn)
    ensures ParseSpec(["lamp", "Status"], colors) == Run("lamp", ShowStatus)
    ensures ParseSpec(["lamp"], colors) == Run("lamp", Toggle) && ParseSpec([], colors) == Usage
  {
    assert Lower("ON") == "on";
    assert Lower("Status") == "status";
  }

  lemma ClassifyHexPrefix(colors: map<string, string>)
    ensures ClassifyToken("0xff8800", colors) == Paint("#ff8800")
  {
    assert "0xff8800"[1] == 'x' && !IsDigits("0xff8800");
    assert "0xff8800"[..1] != "#" by { assert "0xff8800"[..1][0] == '0'; }
    assert StartsWith("0xff8800", "0x") && "0xff8800"[2..] == "ff8800";
  }

  lemma ClassifyForty(colors: map<string, string>)
    ensures ClassifyToken("40", colors) == Level(40)
  {
    assert IsDigits("40");
    assert DecimalValue("40") == 40 by {
      assert "40"[..1] == "4" && "4"[..0] == "";
    }
  }

  /** A `0x` colour becomes a `#` colour, and a digit argument after it
      gives colour and brightness together. */
  lemma HexPrefixWithBrightness(colors: map<string, string>)
    ensures ParseSpec(["lamp", "0xff8800", "40"], colors) == Run("lamp", ColorBrightness("#ff8800", 40))
  {
    ScanHexPrefixForty(colors);
    assert ["lamp", "0xff8800", "40"][1..] == ["0xff8800", "40"];
    assert |Lower("0xff8800")| == 8;
    ParseTokens(["lamp", "0xff8800", "40"], colors);
  }

  lemma ScanHexPrefixForty(colors: map<string, string>)
    ensures Scan(["0xff8800", "40"], colors) == Some((Some("#ff8800"), Some(40)))
  {
    ClassifyHexPrefix(colors);
    ScanOne("0xff8800", colors);
    ClassifyForty(colors);
    ScanLast(["0xff8800"], "40", colors);
    assert ["0xff8800"] + ["40"] == ["0xff8800", "40"];
  }

  lemma ClassifyBareHex(colors: map<string, string>)
    ensures ClassifyToken("ff8800", colors) == Paint("#ff8800")
  {
    assert "ff8800"[0] == 'f' && !IsDigits("ff8800");
    assert !StartsWith("ff8800", "#") && !StartsWith("ff8800", "0x");
    assert forall i | 0 <= i < 6 :: IsHexChar("ff8800"[i]);
  }

  /** Six bare hex digits become a `#` colour. */
  lemma BareHex(colors: map<string, string>)
    ensures ParseSpec(["lamp", "ff8800"], colors) == Run("lamp", Color("#ff8800"))
  {
    ClassifyBareHex(colors);
    ScanOne("ff8800", colors);
    assert ["lamp", "ff8800"][1..] == ["ff8800"];
    assert Lower("ff8800") != "status" by {
      assert Lower("ff8800")[0] == 'f';
    }
    ParseTokens(["lamp", "ff8800"], colors);
  }

  // ---------------------------------------------------------------------
  // execute_command, for one bulb

  /** What `execute_command` does with one bulb before any reply: send one
      frame, only show the status (`status`), or stop on the ValueError
      `hex_to_rgb` raises for a malformed colour. */
  datatype BulbStep = Issue(cmd: DeviceCommand) | ShowOnly | ColorError

  /** The branch `execute_command` takes for one bulb and a command from
      `parse_args`; `status` is what `query_status` returned in the toggle
      and brightness branches. The "invalid color_brightness value" branch
      has no case: `parse_args` always pairs the colour with a brightness. */
  function Dispatch(command: CliCommand, status: Option<Reading>): BulbStep
  {
    match command
    case PowerOn => Issue(SendPower(true))
    case PowerOff => Issue(SendPower(false))
    case Toggle => Issue(SendPower(!(status.Some? && status.value.on)))
    case Color(c) => if SetColor(c).Some? then Issue(SetColor(c).value) else ColorError
    case Brightness(p) => Issue(BrightnessOnly(status, p))
    case ColorBrightness(c, p) =>
      if SetColorWithBrightness(c, p).Some? then Issue(SetColorWithBrightness(c, p).value) else ColorError
    case ShowStatus => ShowOnly
  }

  /** Every brightness `parse_args` returns is a percentage. */
  lemma ParsedPercent(args: seq<string>, colors: map<string, string>)
    requires ParseSpec(args, colors).Run?
    requires ParseSpec(args, colors).command.Brightness? || ParseSpec(args, colors).command.ColorBrightness?
    ensures 0 <= ParseSpec(args, colors).command.percent <= 100
  {
    ScanLevelRange(args[1..], colors);
  }

  /** For a command whose brightness is a percentage: the toggle turns an
      answering bulb the other way and an unreachable one on; the only
      failure before sending is a malformed colour; every frame sent holds
      bytes only. */
  lemma DispatchFacts(c: CliCommand, status: Option<Reading>)
    requires c.Brightness? || c.ColorBrightness? ==> 0 <= c.percent <= 100
    ensures var step := Dispatch(c, status);
      (c == Toggle ==> step == Issue(SendPower(status.None? || !status.value.on))) &&
      (step == ColorError <==>
         (c.Color? || c.ColorBrightness?) && Upper(c.color) != "WW" && HexToRgb(c.color).None?) &&
      (step.Issue? ==> ByteCommand(step.cmd))
  {
    if c.Brightness? {
      BrightnessOnlyFacts(status, c.percent);
    } else if c.ColorBrightness? {
      WarmWhiteLevelRange(c.percent);
      if HexToRgb(c.color).Some? {
        var rgb := HexToRgb(c.color).value;
        ApplyBrightnessFacts(rgb.r as byte, rgb.g as byte, rgb.b as byte, c.percent);
      }
    }
  }

  /** Every command `parse_args` returns dispatches as `DispatchFacts` says. */
  lemma ParsedDispatch(args: seq<string>, colors: map<string, string>, status: Option<Reading>)
    requires ParseSpec(args, colors).Run?
    ensures var step := Dispatch(ParseSpec(args, colors).command, status);
      step.Issue? ==> ByteCommand(step.cmd)
  {
    var c := ParseSpec(args, colors).command;
    if c.Brightness? || c.ColorBrightness? {
      ParsedPercent(args, colors);
    }
    DispatchFacts(c, status);
  }

  /** The line `execute_command` prints for one bulb: for `status` the
      status line of the reading; after a frame, the status line of a fresh
      reading when the send succeeded, else `<name> FAILED`; nothing after a
      malformed colour. */
  function ResultLine(name: string, step: BulbStep, sent: bool, reading: Option<Reading>,
                      colors: seq<(string, string)>): Option<string>
  {
    match step
    case ColorError => None
    case ShowOnly => Some(FormatStatus(name, reading, colors))
    case Issue(_) => Some(if sent then FormatStatus(name, reading, colors) else name + " FAILED")
  }

  /** A status line ends in "UNREACHABLE", "OFF" or a percentage. */
  lemma FormatStatusLast(name: string, status: Option<Reading>, colors: seq<(string, string)>)
    ensures var line := FormatStatus(name, status, colors);
      |line| > 0 && line[|line| - 1] in {'E', 'F', '%'}
  {
  }

  /** The printed line tells a failed send from a successful one, whatever
      the bulb reports afterwards. */
  lemma ResultLineFailed(name: string, cmd: DeviceCommand, before: Option<Reading>, after: Option<Reading>,
                         colors: seq<(string, string)>)
    ensures ResultLine(name, Issue(cmd), false, before, colors) == Some(name + " FAILED")
    ensures ResultLine(name, Issue(cmd), true, after, colors) != ResultLine(name, Issue(cmd), false, before, colors)
  {
    FormatStatusLast(name, after, colors);
    var failed := name + " FAILED";
    assert failed[|failed| - 1] == 'D';
  }
}
