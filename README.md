# MagicCloneLED in Dafny

A verified model of the deterministic core of MagicCloneLED. MagicCloneLED is a set of overlapping
Python controllers for MagicHome-style RGB + warm-white Wi-Fi bulbs. The model leaves out sockets,
HTTP, WebSockets and asyncio. What remains is checked byte by byte and case by case:

- **the wire-frame codec** (`Protocol`). It covers the checksum, the power, RGB and warm-white
  frames, and the fixed status query. It also covers the decoding of a status reply, both as
  `query_status` does it (led.py, main.py) and as `get_status` does it (backend and controllers
  copies). `led_control.py` has its own colour frame with a warm-white byte and a hex front end
  (`LedControl`).
- **the colour math** of `color_utils.py` (`ColorMath`). It covers HSV ↔ RGB with hue wrap,
  clamping, the six-sector table and `int()` truncation, and hex ↔ RGB.
- **the bulb state managers**:
  - `BulbStates`: the per-bulb `BulbState` record and the updates applied to it.
  - `Targets`: target resolution with order-preserving de-duplication.
  - `BackendBulbManager.BulbManager`: the current manager, backend/bulb_manager.py. It covers
    throttling, the setters, group commands, refresh, the poll guard, backoff and poll-due
    selection.
  - `ServicesBulbManager.BulbManager`: the older manager, services/bulb_manager.py. It is
    unthrottled and resolves group targets as a set.
- **the command-line tool** led.py (`Cli`). It covers the brightness arithmetic, the
  "brightness only" decision, the colour commands, the status line, target lookup,
  `parse_args`, and the per-bulb choice and printed line of `execute_command`.
- **the HTTP server** main.py (`ApiServer`). It covers the colour-name lookup, the status record,
  the command dispatch, the status codes of `control_bulb`, and the target resolution and
  de-duplication of `control_group`.
- **the request debouncer** of backend/main.py (`Debounce`).
- **the provisioner's string handling and bookkeeping** (`Provisioner`). It covers the AT-command
  terminator, the discovery reply, MAC normalisation and name lookup, the scan-result filter and
  the watch-mode cooldown map.

Conventions:

- **Time.** Clocks are explicit `real` parameters: seconds for the managers and the provisioner,
  milliseconds for the debouncer.
- **Device outcomes.** A device's answer is an input: a reply byte sequence, or a boolean that says
  whether the send was acknowledged.
- **`bytes(data)`.** Python's `bytes(data)` raises on an element outside 0..255. `Protocol.ToWire`
  models this, and it is what keeps every cached channel a byte.
- **Integer conversions.** Python's `int(a / b)` on ints is `Common.TruncDiv`. `int(x)` on a float
  is `Common.Trunc`, over exact reals.
- **Dicts.** An ordered dict iterated in order (the colour presets) is a sequence of pairs.
- **State.** The manager classes keep their dicts as `map` fields that the methods reassign. A
  `BulbState` is a value held in the `bulbs` map.

Where the code and the system's design description disagree, the model follows the code:

- **Backoff.** The design describes a doubling backoff after three failures. The code uses a fixed
  table: 60 → 120 → 300 → 600 from the first failure (backend/bulb_manager.py:320-333,
  `BulbStates.BackoffSequence`).
- **Reply checksum.** The design says the reply's length and checksum are validated. The code
  checks only `len >= 14` (backend/led_controller.py:95, `Protocol.CorruptReplyAccepted`).
- **Cached values after a failed refresh.** The design says the cache keeps the last-known values
  while a bulb is offline. When `get_status` fails, the backend's `refresh_bulb` receives the
  offline record, whose keys are all present. It therefore overwrites every channel with 0
  (backend/bulb_manager.py:186-201, `BulbStates.RefreshFromStatus`). Only a non-dict status or
  missing keys keep the old values.
- **Colour frame.** The design describes one colour frame with a warm-white byte. Most copies send
  two different frames, and their trailers are byte-swapped: RGB ends `F0 0F`, warm white ends
  `0F F0` (backend/led_controller.py:62-74). Only led_control.py uses the single-frame layout
  (led_control.py:77-79).

## Model

| member | source | states |
|---|---|---|
| `Protocol.Seal` | backend/led_controller.py:64-66 | appending the checksum adds exactly one byte and keeps the body unchanged in front |
| `Protocol.Checksum` | backend/led_controller.py:44-46 | the model of `_checksum`: the byte sum modulo 256; `Protocol.SealedIffSeal` and `Protocol.SingleByteCorruptionDetected` state what appending it guarantees |
| `Protocol.SealedIffSeal` | backend/led_controller.py:44-46 | a frame passes the receiver's check (last byte = sum of the others mod 256) exactly when it is the sealed form of its body |
| `Protocol.SealIsSealed` | backend/led_controller.py:44-46 | every frame a builder seals passes the checksum check (same rule in controllers/led_controller.py:29-31, led.py:54-56, led_control.py:49-51, main.py:100-102) |
| `Protocol.SingleByteCorruptionDetected` | backend/led_controller.py:44-46 | replacing any one byte of a sealed byte frame by a different byte makes the checksum fail |
| `Protocol.ToWire` | backend/led_controller.py:27-42 | `bytes(data)` succeeds exactly when every element is in 0..255, and then carries the same values |
| `Protocol.PowerFrame` | backend/led_controller.py:48-60 | power on is exactly `71 23 0F A3` and power off is exactly `71 24 0F A4` (same in controllers/led_controller.py:33-43, led.py:58-68, led_control.py:53-63, main.py:104-114) |
| `Protocol.RgbFrameLayout` | backend/led_controller.py:62-67 | the RGB frame has 9 bytes `31 r g b 00 00 F0 0F cs`, its checksum is `(r+g+b+0x30) mod 256`, and it passes the check (same in controllers/led_controller.py:45-49, led.py:70-74) |
| `Protocol.WarmWhiteFrameLayout` | backend/led_controller.py:69-74 | the warm-white frame has 9 bytes `31 00 00 00 w 00 0F F0 cs` with checksum `(w+0x30) mod 256`; it is the RGB-order frame with bytes 6 and 7 swapped, and the checksum is unchanged (same in controllers/led_controller.py:51-55, led.py:76-80) |
| `Protocol.RgbFrameBytes` | backend/led_controller.py:62-67 | the RGB frame can be sent exactly when r, g and b are bytes |
| `Protocol.WarmWhiteFrameBytes` | backend/led_controller.py:69-74 | the warm-white frame can be sent exactly when w is a byte |
| `Protocol.RgbFrame` | backend/led_controller.py:62-67 | the model of the `set_rgb` frame; its layout and bytes are the contracts of `Protocol.RgbFrameLayout` and `Protocol.RgbFrameBytes` |
| `Protocol.WarmWhiteFrame` | backend/led_controller.py:69-74 | the model of the `set_warm_white` frame; its layout and bytes are the contracts of `Protocol.WarmWhiteFrameLayout` and `Protocol.WarmWhiteFrameBytes` |
| `Protocol.PowerFrameBytes` | backend/led_controller.py:48-60 | the power frames can always be sent |
| `Protocol.QueryFrameSealed` | backend/led_controller.py:85 | the last byte of the status query `81 8A 8B 96` is the checksum of the first three (same in controllers/led_controller.py:65) |
| `Protocol.DecodeReply` | backend/led_controller.py:95-103 | a reply decodes exactly when it has at least 14 bytes; then on ⇔ byte 2 = 0x23, and r, g, b, ww are bytes 6..9 |
| `Protocol.QueryStatus` | led.py:152-172 | `query_status` gives a reading exactly when the read succeeded with at least 14 bytes, otherwise None (same in main.py:144-170) |
| `Protocol.GetStatus` | backend/led_controller.py:76-112 | `get_status` never returns "no answer": online ⇔ a reply of ≥ 14 bytes; offline is the all-zero record with on = false; online carries byte 2 and bytes 6..9 (same in controllers/led_controller.py:57-86) |
| `Protocol.DecodeReadsOnlyFields` | backend/led_controller.py:95-103 | two long-enough replies that agree on bytes 2 and 6..9 decode alike, whatever their other bytes, tail and checksum |
| `Protocol.CorruptReplyAccepted` | backend/led_controller.py:95 | a 14-byte reply with a wrong checksum is still decoded as online |
| `Common.DedupElements` | main.py:419-425 | first-occurrence de-duplication keeps exactly the input's elements, each once |
| `Common.DedupFirstOccurrenceOrder` | main.py:419-425 | de-duplication lists the elements in the order of their first occurrence |
| `Common.Dedup` | main.py:419-425 | the model of the `seen`-set de-duplication; `Common.DedupElements` (same elements, no repeats) and `Common.DedupFirstOccurrenceOrder` (first-occurrence order) state its properties |
| `ColorMath.Unit` | backend/color_utils.py:17-18 | saturation and value are clamped to [0, 100] before dividing by 100, so the result lies in [0, 1] and is exact inside the range |
| `ColorMath.WrapHueRange` | backend/color_utils.py:16 | `h % 360` lands in [0, 360) |
| `ColorMath.WrapHueInRange` | backend/color_utils.py:16 | the hue wrap leaves a hue in [0, 360) unchanged |
| `ColorMath.HsvHueWraps` | backend/color_utils.py:16-47 | `hsv_to_rgb` gives the same colour for h and h + 360 |
| `ColorMath.SectorRange` | backend/color_utils.py:26-27 | the sector `int(h / 60)` of a wrapped hue is in 0..5 |
| `ColorMath.SectorTableRows` | backend/color_utils.py:34-45 | every row of the six-case table draws from v, p, q and t and uses v for one channel, so each channel lies in [0, v] and one of them equals v |
| `ColorMath.ChannelBounds` | backend/color_utils.py:30-45 | p, q and t computed from a unit saturation and value give channels in [0, v], with the maximum equal to v |
| `ColorMath.HsvToRgbChannels` | backend/color_utils.py:7-47 | for any input, every output channel is in 0..255, the brightest channel is `int(v*255)` of the clamped value, and zero saturation gives a gray (same in utils/color_utils.py:7-47) |
| `ColorMath.HsvToRgb` | backend/color_utils.py:7-47 | the model of `hsv_to_rgb` (hue wrap, clamping, six-sector table, `int()` truncation); its properties are the contracts of `ColorMath.HsvToRgbChannels`, `ColorMath.HsvHueWraps` and `ColorMath.HsvRoundTrip` |
| `ColorMath.SaturationRange` | backend/color_utils.py:68-72 | for byte channels the saturation is in [0, 100], equals delta/max when max > 0, and is 0 exactly when delta is 0 |
| `ColorMath.HueRange` | backend/color_utils.py:74-82 | for byte channels the hue is in [0, 360) |
| `ColorMath.RgbToHsvRanges` | backend/color_utils.py:50-84 | for byte channels: h in [0, 360), s and v in [0, 100], v = max·100/255, s = 0 ⇔ the channels are equal, and a gray has h = 0 (same in utils/color_utils.py:50-84) |
| `ColorMath.RgbToHsv` | backend/color_utils.py:50-84 | the model of `rgb_to_hsv`; its ranges are the contract of `ColorMath.RgbToHsvRanges` and its inverse is `ColorMath.HsvRoundTrip` |
| `ColorMath.HsvRoundTrip` | backend/color_utils.py:7-84 | with exact arithmetic, `hsv_to_rgb(rgb_to_hsv(r, g, b)) == (r, g, b)` for every byte colour |
| `ColorMath.ParseHex` | backend/color_utils.py:90 | the model's strict reading of `int(t, 16)` on a slice: it succeeds exactly for a non-empty string of hex digits, with their base-16 value |
| `ColorMath.HexToRgb` | backend/color_utils.py:87-90 | whatever `hex_to_rgb` parses has byte channels |
| `ColorMath.RgbToHexFormat` | backend/color_utils.py:93-95 | for byte channels `rgb_to_hex` writes `#` plus six upper-case hex digits, and each pair has the channel's value (same in main.py:140-142) |
| `ColorMath.RgbToHex` | backend/color_utils.py:93-95 | the model of `rgb_to_hex` (`%02x` per channel, upper-cased); its format is the contract of `ColorMath.RgbToHexFormat` and its inverse `ColorMath.HexRoundTrip` |
| `ColorMath.HexToRgbSix` | backend/color_utils.py:87-90 | `#` plus six hex digits parses to the three pair values |
| `ColorMath.HexRoundTrip` | backend/color_utils.py:87-95 | `hex_to_rgb(rgb_to_hex(r, g, b)) == (r, g, b)` for byte channels (same in utils/color_utils.py:87-95, main.py:135-142) |
| `ColorMath.HexRoundTripBack` | backend/color_utils.py:87-95 | any `#` plus six hex digits, in either case, is read and written back as its upper-case form |
| `ColorMath.HexToRgbStripsHashes` | backend/color_utils.py:89 | every leading `#` is stripped, however many there are |
| `ColorMath.HexToRgbShort` | backend/color_utils.py:90 | a five-digit string is accepted: the clipped last slice is one digit |
| `ColorMath.HexHsvRoundTrip` | backend/color_utils.py:98-107 | `hsv_to_hex(hex_to_hsv(s))` is the upper-case form of any `#RRGGBB` |
| `ColorMath.HsvHexRoundTrip` | backend/color_utils.py:98-107 | for any HSV input, `hex_to_hsv(hsv_to_hex(h, s, v))` is the HSV of the truncated RGB colour, so the helpers are exactly the compositions |
| `ColorMath.HsvToHex` | backend/color_utils.py:98-101 | the model of `hsv_to_hex` as `rgb_to_hex` of `hsv_to_rgb`; `ColorMath.HsvHexRoundTrip` and `ColorMath.HexHsvRoundTrip` state its round trips |
| `ColorMath.HexToHsv` | backend/color_utils.py:104-107 | the model of `hex_to_hsv` as `rgb_to_hsv` of `hex_to_rgb`, None where the parse fails; round trips as in `ColorMath.HexHsvRoundTrip` |
| `BulbStates.NewBulb` | backend/bulb_manager.py:17-34 | a new record is offline, off, black, never updated or commanded, polled every 60 s, and satisfies the record invariant |
| `BulbStates.UpdateHsv` | backend/bulb_manager.py:150-161 | the HSV becomes the one derived from the channels (warm-white mode: h = s = 0, v = ww/255·100), `last_updated` is stamped, and nothing else changes |
| `BulbStates.UpdatePollInterval` | backend/bulb_manager.py:320-333 | success resets failures to 0; failure adds one; the interval is always in {60, 120, 300, 600} and follows the failure count; only those two fields change (same in services/bulb_manager.py:273-286) |
| `BulbStates.Refresh` | backend/bulb_manager.py:186-201 | a refresh changes neither the name, the address, the command time nor the backoff fields |
| `BulbStates.UpdatesPreserveValid` | backend/bulb_manager.py:209-275 | set_power, set_rgb with byte channels, set_warm_white with a byte, and the backoff update all keep the record invariant (byte channels, matching HSV, interval from the table) |
| `BulbStates.RefreshPreservesValid` | backend/bulb_manager.py:186-201 | a refresh from a status with byte channels keeps the record invariant |
| `BulbStates.ApplyRgbEffect` | backend/bulb_manager.py:236-247 | after a successful set_rgb the record is on, holds exactly r, g, b, has ww = 0, has the command time stamped, and its HSV converts back to r, g, b; online and backoff are untouched (same in services/bulb_manager.py:187-196) |
| `BulbStates.ApplyWarmWhiteEffect` | backend/bulb_manager.py:259-273 | after a successful set_warm_white the channels are 0, ww is set, the record is on and stamped, and v = ww·100/255 (same in services/bulb_manager.py:211-223) |
| `BulbStates.ApplyPowerEffect` | backend/bulb_manager.py:219-223 | a successful set_power changes only `on` and the command time |
| `BulbStates.ApplyRgb` | backend/bulb_manager.py:236-247 | the model of the record update after a successful set_rgb; `BulbStates.ApplyRgbEffect` states it |
| `BulbStates.ApplyPower` | backend/bulb_manager.py:219-223 | the model of the record update after a successful set_power; `BulbStates.ApplyPowerEffect` states it |
| `BulbStates.ApplyWarmWhite` | backend/bulb_manager.py:259-273 | the model of the record update after a successful set_warm_white; `BulbStates.ApplyWarmWhiteEffect` states it |
| `BulbStates.WarmWhiteByteRange` | backend/bulb_manager.py:259 | `int(brightness/100*255)` is a byte exactly for percentages 0..100; 100 gives 255 and 0 gives 0 |
| `BulbStates.WarmWhiteByteMonotone` | backend/bulb_manager.py:259 | a larger percentage never gives a smaller warm-white byte |
| `BulbStates.WarmWhiteByte` | backend/bulb_manager.py:259 | the model of `int((brightness/100)*255)`; `BulbStates.WarmWhiteByteRange` and `BulbStates.WarmWhiteByteMonotone` state its range and monotonicity |
| `BulbStates.WarmWhiteBrightnessRoundTrip` | backend/bulb_manager.py:51-53 | setting warm white to p percent and reading `brightness` back from `to_dict` gives p or p − 1, and `is_warm_white` ⇔ p > 0 |
| `BulbStates.BackoffSequence` | backend/bulb_manager.py:320-333 | starting from a success, the k-th consecutive failure sets the interval to 120, 300, then 600 for every k ≥ 3 |
| `BulbStates.BackoffMonotone` | backend/bulb_manager.py:320-333 | a failure never shortens the interval or exceeds 600; a success always restores 60 |
| `BulbStates.BackoffInterval` | backend/bulb_manager.py:326-333 | the interval table 60/120/300/600 by failure count; `BulbStates.UpdatePollInterval`, `BulbStates.BackoffSequence` and `BulbStates.BackoffMonotone` state it |
| `BulbStates.RefreshGuardWithinSkip` | backend/bulb_manager.py:310-318 | the 5 s refresh guard lies inside the 10 s polling skip window, so a poll that is not skipped always queries the device |
| `BulbStates.SkipWindow` | backend/bulb_manager.py:310-318 | a bulb never commanded is never skipped; the window is strict: skipped at 9.5 s, polled at 10 s (same in services/bulb_manager.py:263-271) |
| `BulbStates.PollDueWindow` | backend/bulb_manager.py:359-368 | a record never updated is always due; otherwise it is due exactly when `poll_interval` seconds have elapsed, and it stays due |
| `BulbStates.ShouldSkip` | backend/bulb_manager.py:310-318 | the 10 s skip test of `_should_skip_bulb`; `BulbStates.SkipWindow` states the window |
| `BulbStates.RefreshGuard` | backend/bulb_manager.py:170-174 | the 5 s guard of `refresh_bulb`; `BulbStates.RefreshGuardWithinSkip` relates it to the skip window |
| `BulbStates.PollDue` | backend/bulb_manager.py:359-368 | the due test of the polling loop; `BulbStates.PollDueWindow` states it |
| `BulbStates.RefreshFromStatus` | backend/bulb_manager.py:186-201 | refreshing from `get_status`: online ⇔ a 14-byte reply; an offline reply zeroes every channel; an online one stores bytes 6..9 and the power byte |
| `BulbStates.RefreshKeepsMissing` | backend/bulb_manager.py:186-197 | missing keys keep the prior channels while missing `online`/`on` read as false; a non-dict status only clears `online` (same in services/bulb_manager.py:140-151) |
| `BulbStates.ToDictFacts` | backend/bulb_manager.py:36-55 | for a valid record, `brightness` is in 0..100 (in RGB mode the brightest channel's percentage), `hex` reads back as the channels, and `is_warm_white` ⇔ ww > 0 (same in services/bulb_manager.py:36-55) |
| `BulbStates.ToDict` | backend/bulb_manager.py:36-55 | the model of `to_dict`; `BulbStates.ToDictFacts` and `BulbStates.WarmWhiteBrightnessRoundTrip` state what it reports |
| `Targets.Configured` | backend/bulb_manager.py:110-113 | a group contributes exactly its members that are configured bulbs |
| `Targets.ExpandKnown` | backend/bulb_manager.py:99-115 | every resolved name is a configured bulb |
| `Targets.ExpandCovers` | backend/bulb_manager.py:99-115 | every target that is a bulb, and every configured member of a target that is a group (and not a bulb), is resolved |
| `Targets.UnknownTargetDropped` | backend/bulb_manager.py:104-113 | a target that is neither a bulb nor a group is dropped silently |
| `Targets.ResolvedFacts` | backend/bulb_manager.py:99-115 | `resolve_targets` returns each name once, only configured bulbs, covering every bulb and group member named, in order of first occurrence, with a bulb name checked before a group of the same name |
| `Targets.Contribution` | backend/bulb_manager.py:104-113 | what one target adds: itself if a bulb, else its configured members if a group, else nothing; `Targets.Configured` and `Targets.UnknownTargetDropped` state it |
| `Targets.Expand` | backend/bulb_manager.py:99-115 | the contributions of all targets in order; `Targets.ExpandKnown`, `Targets.ExpandCovers` and `Targets.ResolvedFacts` state its properties |
| `BackendBulbManager.SendTime` | backend/bulb_manager.py:127-131 | a throttled command starts no earlier than now and at least 0.12 s after the last recorded transport time, and without extra delay |
| `BackendBulbManager.DueNames` | backend/bulb_manager.py:357-368 | the polled names are exactly the configured bulbs that are due, in configuration order, each once |
| `BackendBulbManager.PollOutcomeFacts` | backend/bulb_manager.py:335-349 | one poll keeps the record valid and keeps its name; a poll that is not skipped always reaches the device and updates the failure count from its result |
| `BackendBulbManager.PollOutcome` | backend/bulb_manager.py:335-349 | the record after one `_poll_single_bulb`; `BackendBulbManager.PollOutcomeFacts` states it |
| `BackendBulbManager.GroupRgbEffect` | backend/bulb_manager.py:277-289 | after a group command, each distinct target whose send succeeded holds the colour (on, ww = 0, HSV round-trips), stamped at its own finish time; failed targets and bulbs outside the group keep their records |
| `BackendBulbManager.BulbManager.constructor` | backend/bulb_manager.py:62-97 | one fresh record per configured bulb in configuration order, the groups as given, every transport time 0 |
| `BackendBulbManager.BulbManager.ResolveTargets` | backend/bulb_manager.py:99-115 | the loop with `seen` returns exactly the de-duplicated expansion of the targets |
| `BackendBulbManager.BulbManager.RunSerialized` | backend/bulb_manager.py:117-135 | an unknown bulb fails without sending; otherwise the send starts at `SendTime`, succeeds ⇔ the frame is bytes and the device acked, and the transport time is updated after the send either way |
| `BackendBulbManager.BulbManager.SetPower` | backend/bulb_manager.py:209-225 | succeeds ⇔ the bulb is known and acked; then exactly that record gets the power effect at the finish time and its name is appended to the notification log; otherwise records and log are unchanged; the bulb list and groups never change, and only a known bulb's transport time moves, to the send's finish |
| `BackendBulbManager.BulbManager.SetRgb` | backend/bulb_manager.py:227-247 | succeeds ⇔ the bulb is known, the channels are bytes and the device acked; then exactly that record is recoloured at the finish time; otherwise the records are unchanged |
| `BackendBulbManager.BulbManager.SetHsv` | backend/bulb_manager.py:249-252 | set_rgb with the colour `hsv_to_rgb` gives, which can always be sent: succeeds ⇔ known and acked, with the same record, log and transport-time effects as `SetRgb` |
| `BackendBulbManager.BulbManager.SetWarmWhite` | backend/bulb_manager.py:254-275 | succeeds ⇔ the bulb is known, the percentage is 0..100 and acked; then the record gets `int(b/100*255)` warm white and its name is logged; otherwise records and log are unchanged; bulb list and groups never change, and only a known bulb's transport time moves |
| `BackendBulbManager.BulbManager.SetGroupRgb` | backend/bulb_manager.py:277-289 | sends to the resolved targets in order, each once; results map each target to whether its device acked with byte channels (`Outcomes`); the records equal the sequential recolouring; the log gains the acked targets in send order; each target's transport time is its own finish and every other one is kept (`Restamped`); no send starts before now, consecutive sends are spaced by the command time plus 0.02 s, with no wait after the last (`OnSchedule`); every send went through the per-bulb throttle, starting at `SendTime` of its due time and the bulb's transport time before the group command (`Throttled`); bulb list and groups are unchanged |
| `BackendBulbManager.BulbManager.SetRgbInTurn` | backend/bulb_manager.py:284-288 | the send loop yields the per-target outcomes, the sequential recolouring, the acked targets appended to the log in order, each target's transport time restamped on schedule, and each send throttled against the bulb's transport time before the loop; bulb list and groups are unchanged |
| `BackendBulbManager.ThrottledStarts` | backend/bulb_manager.py:117-135 | in a group command, the i-th send starts at `SendTime` of its due time (now for the first, 0.02 s after the previous send finished otherwise) and the bulb's earlier transport time, so at least 0.12 s after that time |
| `BackendBulbManager.OutcomesFacts` | backend/bulb_manager.py:282-286 | the results of a group command have one entry per target, true exactly when the device acked and the channels were bytes |
| `BackendBulbManager.BulbManager.SetRgbNext` | backend/bulb_manager.py:285-287 | one loop pass extends the progress invariant from index i to i + 1 |
| `BackendBulbManager.BulbManager.RefreshBulb` | backend/bulb_manager.py:163-201 | an unknown bulb gives false with no change; within 5 s of a command the cached `online` is returned with no query; otherwise the record is refreshed from the status and its new `online` returned |
| `BackendBulbManager.BulbManager.PollSingle` | backend/bulb_manager.py:335-349 | a skipped bulb reports success with its record and the log unchanged; otherwise it refreshes, updates the backoff from the result and logs the name; bulb list, groups and transport times never change |
| `BackendBulbManager.BulbManager.UpdateBackoff` | backend/bulb_manager.py:320-333 | only that record's failure count and interval change, by `UpdatePollInterval`; log, bulb list, groups and transport times are unchanged |
| `ServicesBulbManager.BulbManager.UpdateBackoff` | services/bulb_manager.py:273-286 | only that record's failure count and interval change, by `UpdatePollInterval` (reset to 60 s on success, else 120, 300, then 600 s); the log, bulb list and groups are unchanged |
| `BackendBulbManager.BulbManager.DueForPoll` | backend/bulb_manager.py:357-368 | the selection loop returns exactly `DueNames` |
| `BackendBulbManager.BulbManager.PollRound` | backend/bulb_manager.py:351-385 | one polling round polls exactly the due bulbs, gives each one its poll outcome, keeps the others, and logs the due bulbs that were not skipped, in order; bulb list, groups and transport times are unchanged (same loop in services/bulb_manager.py:304-338) |
| `BackendBulbManager.BulbManager.PollEach` | backend/bulb_manager.py:370-377 | the loop over the due names gives each its poll outcome in turn and logs the unskipped ones in order; bulb list, groups and transport times unchanged |
| `ServicesBulbManager.GroupTargetsMembers` | services/bulb_manager.py:231-237 | a name is a target ⇔ it is a named bulb, or a member of a named group that is not itself a bulb, and members are not filtered |
| `ServicesBulbManager.UnconfiguredMemberReported` | services/bulb_manager.py:231-242 | an unconfigured member of a group is still a target and reported as failed |
| `ServicesBulbManager.GroupRgbEffect` | services/bulb_manager.py:227-242 | every target whose set_rgb succeeded holds the colour at the command time; all other records are unchanged |
| `ServicesBulbManager.BulbManager.constructor` | services/bulb_manager.py:60-89 | one fresh record per configured bulb in configuration order, the groups as given |
| `ServicesBulbManager.BulbManager.SetPower` | services/bulb_manager.py:163-177 | unthrottled: succeeds ⇔ known and acked; then only that record gets the power effect; an unknown name changes nothing |
| `ServicesBulbManager.BulbManager.SetRgb` | services/bulb_manager.py:179-198 | succeeds ⇔ known, byte channels and acked; then only that record is recoloured; failure changes nothing |
| `ServicesBulbManager.BulbManager.SetHsv` | services/bulb_manager.py:200-203 | set_rgb with the colour `hsv_to_rgb` gives: succeeds ⇔ known and acked, then only that record is recoloured and its name logged; bulb list and groups unchanged |
| `ServicesBulbManager.BulbManager.SetWarmWhite` | services/bulb_manager.py:205-225 | succeeds ⇔ known, percentage 0..100 and acked; then rgb is zeroed and ww = `int(b/100*255)` |
| `ServicesBulbManager.BulbManager.CollectTargets` | services/bulb_manager.py:231-237 | the `add`/`update` loop builds exactly `GroupTargets` |
| `ServicesBulbManager.BulbManager.SetGroupRgb` | services/bulb_manager.py:227-242 | results map each target to its success; the records are painted for exactly the targets that succeeded; each succeeded target is logged exactly once (in set order, which the model leaves open) and nothing else is logged; bulb list and groups unchanged |
| `ServicesBulbManager.BulbManager.SetRgbEach` | services/bulb_manager.py:239-242 | the one-per-target sends give the per-target results, the painting, and one log entry per succeeded target; bulb list and groups unchanged |
| `ServicesBulbManager.BulbManager.SetRgbOne` | services/bulb_manager.py:239-240 | one send removes its target from the remaining set and keeps the progress invariant |
| `ServicesBulbManager.BulbManager.SetGroupHsv` | services/bulb_manager.py:244-249 | the group command with the colour `hsv_to_rgb` gives, with the same results, painting and log as `SetGroupRgb`; every known reachable target succeeds |
| `ServicesBulbManager.BulbManager.RefreshBulb` | services/bulb_manager.py:117-155 | unknown → false with no change; within 5 s of a command → cached `online`; otherwise refreshed from the status |
| `ServicesBulbManager.BulbManager.PollSingle` | services/bulb_manager.py:288-302 | a skipped bulb reports success with record and log unchanged; otherwise it refreshes, updates the backoff and logs the name; bulb list and groups unchanged |
| `Cli.FrameSendable` | led.py:43-52 | `send_command` gets past `bytes(data)` exactly when every value of the command is a byte |
| `Cli.DimFacts` | led.py:82-85 | for a percentage, `int(c * p/100)` never brightens, 100 keeps the channel, 0 zeroes it, and it is monotone in both the channel and the percentage |
| `Cli.DimMax` | led.py:82-85 | dimming commutes with taking the brightest channel |
| `Cli.ApplyBrightnessFacts` | led.py:82-85 | `apply_brightness_to_rgb` (`Cli.ApplyBrightness`, one `Cli.Dim` per channel) on a byte colour and a percentage: no channel gets brighter, 100 % keeps the colour, 0 % gives black, and the brightest channel of the result is the dimmed brightest channel |
| `Cli.FullBrightnessColor` | led.py:87-104 | `get_full_brightness_color` gives None exactly in warm-white mode |
| `Cli.RescaleFacts` | led.py:99-102 | a rescaled channel stays a byte no darker than the original; the brightest channel becomes 255 and 0 stays 0 |
| `Cli.Rescale` | led.py:99-102 | the model of `int(c * 255 / max)`; `Cli.RescaleFacts` states it |
| `Cli.FullBrightnessFacts` | led.py:87-104 | in RGB mode the full-brightness colour has byte channels, its maximum is 255, no channel gets darker, and black becomes white |
| `Cli.WarmWhiteLevelRange` | led.py:117 | `int(p*255/100)` is a byte for percentages; 100 gives 255 and 0 gives 0 |
| `Cli.WarmWhiteLevel` | led.py:117 | the model of `int(p * 255 / 100)`; `Cli.WarmWhiteLevelRange` states its range |
| `Cli.BrightnessOnlyFacts` | led.py:106-132 | off or unreachable → white at p; warm white → `int(p*255/100)`; RGB → the full-brightness colour dimmed so its maximum is `int(255*p/100)` (100 % restores it); the command is always sendable |
| `Cli.BrightnessOnly` | led.py:106-132 | the model of `set_brightness_only`'s decision; `Cli.BrightnessOnlyFacts` states it |
| `Cli.SetColorRoundTrip` | led.py:134-140 | `set_color` sends exactly the colour `rgb_to_hex` wrote |
| `Cli.SetColorOfHex` | led.py:134-140 | any string `hex_to_rgb` parses (other than "WW") is sent as those channels |
| `Cli.SetColorWarmWhite` | led.py:136-137 | `set_color` upper-cases first, so "ww" and "wW" (like "WW") are full warm white |
| `Cli.SetColorWithBrightnessAgrees` | led.py:142-150 | at 100 % it agrees with `set_color` on every string; at any percentage it fails exactly when `set_color` does, and it sends bytes |
| `Cli.SetColor` | led.py:134-140 | the model of `set_color`; `Cli.SetColorRoundTrip`, `Cli.SetColorOfHex` and `Cli.SetColorWarmWhite` state it |
| `Cli.SetColorWithBrightness` | led.py:142-150 | the model of `set_color_with_brightness`; `Cli.SetColorWithBrightnessAgrees` states it |
| `Cli.GetTargetBulbs` | led.py:180-187 | every pair returned is a configured bulb with its own address (same in main.py:261-268) |
| `Cli.GetTargetBulbsCases` | led.py:180-187 | a bulb name gives that bulb even if a group shares the name; a group gives exactly its configured members; anything else gives nothing |
| `Cli.PresetForFirst` | led.py:205-208 | the colour name is the first preset whose upper-cased value matches, and there is none exactly when no preset matches |
| `Cli.PresetFor` | led.py:205-208 | the first-match preset lookup; `Cli.PresetForFirst` states it |
| `Cli.Percent` | led.py:199 | `int(x*100/255)` of a byte is at most 100, and 100 exactly for 255 |
| `Cli.FormatStatusColor` | led.py:201-212 | an RGB status line shows the first matching preset, or else a hex string that reads back as the channels, then the maximum's percentage |
| `Cli.PercentText` | led.py:209-212 | the printed percentage is a digit string that reads back as `x*100/255` |
| `Cli.FormatStatusOther` | led.py:190-200 | no status → `UNREACHABLE`; off → `OFF`; warm white → `warm white N%` |
| `Cli.FormatStatus` | led.py:190-212 | the model of `format_status`; `Cli.FormatStatusOther` and `Cli.FormatStatusColor` state its lines |
| `Cli.ParseArgs` | led.py:259-302 | the loop over the arguments computes exactly `ParseSpec`: usage, toggle, explicit commands, then the per-token scan and the final decision |
| `Cli.UnknownTokenRejects` | led.py:290-292 | one unknown argument anywhere makes the whole parse fail |
| `Cli.LastLevelWins` | led.py:277-279 | the parsed brightness is the one from the last digit argument |
| `Cli.LastPaintWins` | led.py:280-289 | the parsed colour is the one from the last colour argument |
| `Cli.ScanLevelRange` | led.py:278-279 | every parsed brightness is clamped to 0..100 |
| `Cli.ScanLast` | led.py:277-292 | each argument changes the scan's result according to its class only |
| `Cli.ClassifyToken` | led.py:277-292 | the class of one argument (digits, then `0x`, then bare hex, then preset, else unknown); `Cli.ClassifyForty`, `Cli.ClassifyHexPrefix`, `Cli.ClassifyBareHex` and `Cli.DigitsBeforeHex` state it |
| `Cli.Scan` | led.py:274-292 | the per-token scan; `Cli.ScanLast`, `Cli.LastLevelWins`, `Cli.LastPaintWins`, `Cli.ScanLevelRange` and `Cli.UnknownTokenRejects` state it |
| `Cli.Dispatch` | led.py:222-250 | the branch `execute_command` takes for one bulb and a parsed command; `Cli.DispatchFacts`, `Cli.ParsedDispatch` and `ApiServer.PowerActionsAgree` state it |
| `Cli.DispatchFacts` | led.py:222-250 | for a command whose brightness is a percentage: toggle sends off to an answering bulb that is on and on otherwise; the only failure before sending is a malformed colour (not "WW", rejected by `hex_to_rgb`); every frame sent is bytes |
| `Cli.ParsedPercent` | led.py:278-299 | the brightness of a parsed `brightness` or `color_brightness` command is in 0..100 |
| `Cli.ParsedDispatch` | led.py:215-250 | every frame `execute_command` sends for a command `parse_args` returned is bytes |
| `Cli.ResultLine` | led.py:247-256 | the line printed for one bulb; `Cli.ResultLineFailed` states it |
| `Cli.ResultLineFailed` | led.py:252-256 | a failed send prints `<name> FAILED`, and that line never equals the status line printed after a successful send |
| `Cli.FormatStatusLast` | led.py:190-212 | every status line ends in "UNREACHABLE", "OFF" or a percentage sign |
| `Cli.ParseSpec` | led.py:259-302 | the whole of `parse_args` as a function; `Cli.ParseArgs` proves the loop computes it and `Cli.ExplicitCommands`, `Cli.HexPrefixWithBrightness` and `Cli.BareHex` state its cases |
| `Cli.DigitsBeforeHex` | led.py:278-287 | `"123456"` is brightness 100, not a colour: the digit test comes first |
| `Cli.ExplicitCommands` | led.py:261-271 | the explicit commands match in any case and ignore the rest; one argument toggles; none gives usage |
| `Cli.ClassifyHexPrefix` | led.py:282-284 | `0x` plus six characters becomes `#` plus those six |
| `Cli.ClassifyForty` | led.py:278-279 | a digit argument is a brightness |
| `Cli.HexPrefixWithBrightness` | led.py:282-296 | a colour followed by a digit argument parses as `color_brightness` |
| `Cli.ClassifyBareHex` | led.py:285-287 | six bare hex digits become a `#` colour |
| `Cli.BareHex` | led.py:285-298 | a bare hex colour alone parses as `color` |
| `ApiServer.GetColorNameFacts` | main.py:271-277 | the name of the first preset whose value matches case-insensitively, otherwise the input unchanged |
| `ApiServer.GetColorName` | main.py:271-277 | the model of `get_color_name`; `ApiServer.GetColorNameFacts` states it |
| `ApiServer.FormatBulbStatus` | main.py:280-313 | the record carries the name; online ⇔ the bulb answered; the brightness is in 0..100; the hex always has `#` and 7 characters |
| `ApiServer.FormatBulbStatusOffline` | main.py:284-285 | a bulb that does not answer gives `BulbStatus(name=name, online=False)` with every other field at its declared default (`ApiServer.OfflineStatus`): off, channels 0, 0 %, `#000000`, "black" |
| `ApiServer.FormatBulbStatusOnline` | main.py:288-313 | an answering bulb reports its reading; warm white → `int(ww*100/255)`, `#FFFFFF`, "warm white"; RGB → a hex that reads back as the channels, 100 % ⇔ a channel is 255, and a preset name or the hex |
| `ApiServer.WarmWhitePercentReadBack` | main.py:289-292 | a warm-white percentage p sent as `int(p*255/100)` is reported back as p or p − 1 (0 and 100 exactly, 1 as 0) |
| `ApiServer.InlineBrightnessOnlyAgrees` | main.py:172-202 | main.py's inline `set_brightness_only` decides exactly like led.py's, so `Cli.BrightnessOnlyFacts` holds for it |
| `ApiServer.InlineBrightnessOnly` | main.py:172-202 | main.py's own `set_brightness_only`; `ApiServer.InlineBrightnessOnlyAgrees` proves it equal to `Cli.BrightnessOnly` |
| `ApiServer.InvalidExactly` | main.py:357-390 | a command is rejected exactly when no branch applies: unknown action, `color` without a colour, or `brightness` without a value |
| `ApiServer.PowerActionsAgree` | main.py:356-365 | the server's `on`, `off` and `toggle` send the same frame as the command-line tool's dispatch for the same reading |
| `ApiServer.ActionSendable` | main.py:356-386 | within the request model's 0..100 bounds, every frame the dispatch sends is bytes |
| `ApiServer.WarmWhiteDefaults` | main.py:367-386 | a missing or zero warm-white percentage falls back to the brightness, then to 100 |
| `ApiServer.HexColorSent` | main.py:372-380 | a hex colour is sent as its channels, dimmed when a brightness is given |
| `ApiServer.PresetHexAbsent` | main.py:374 | `COLORS.get` of a key that is not a preset gives the default |
| `ApiServer.PresetColorSent` | main.py:372-380 | a preset name sends the preset's colour |
| `ApiServer.PresetHexAt` | main.py:374 | `COLORS.get` of a preset name gives its value |
| `ApiServer.BulbAction` | main.py:356-390 | the `control_bulb` if-chain; `ApiServer.InvalidExactly`, `ApiServer.ActionSendable`, `ApiServer.WarmWhiteDefaults`, `ApiServer.HexColorSent` and `ApiServer.PresetColorSent` state it |
| `ApiServer.ColorAction` | main.py:367-386 | the `color` branch; its frames are stated by `ApiServer.HexColorSent`, `ApiServer.PresetColorSent` and `ApiServer.WarmWhiteDefaults` through `ApiServer.BulbAction` |
| `ApiServer.ControlBulb` | main.py:348-404 | the intended handler: 404 ⇔ unknown bulb, 400 ⇔ known bulb and no branch applies |
| `ApiServer.InvalidCommandAnswers500` | main.py:387-404 | as written, the 400 raised inside the `try` is caught and re-raised as 500, so the handler never answers 400; on every other input it agrees with the intended handler |
| `ApiServer.UnknownActionExample` | main.py:387-404 | action "dance" on a known bulb answers 500 as written and 400 as intended |
| `ApiServer.ControlBulbAsWritten` | main.py:348-404 | `control_bulb` as written, with the 400 swallowed into a 500; `ApiServer.InvalidCommandAnswers500` and `ApiServer.UnknownActionExample` state the difference |
| `ApiServer.SingleBulbAgrees` | main.py:462-500 | `control_single_bulb` succeeds with a status exactly when `control_bulb` would answer with the same status |
| `ApiServer.ControlSingleBulb` | main.py:462-500 | the model of `control_single_bulb`; `ApiServer.SingleBulbAgrees` relates it to `ApiServer.ControlBulb` |
| `ApiServer.TargetBulbsAddressed` | main.py:261-268 | `get_target_bulbs` pairs each contributed bulb with its address |
| `ApiServer.TargetUnresolvable` | main.py:413-416 | a target resolves to nothing ⇔ it is not a bulb and not a group with a configured member |
| `ApiServer.UniqueTargets` | main.py:410-425 | the bulbs a group command reaches appear once each, each paired with its address |
| `ApiServer.ControlGroupTargets` | main.py:408-425 | not-found ⇔ some target resolves to nothing, and the first such target is reported before anything is sent; otherwise the de-duplicated pairs in first-occurrence order |
| `ApiServer.GatherTargets` | main.py:413-417 | the first loop appends each target's pairs in turn and stops at the first unresolvable target |
| `ApiServer.UniqueByName` | main.py:419-425 | the second loop keeps a pair exactly when its name was not seen before |
| `ApiServer.Report` | main.py:440-459 | successes plus errors count every bulb; every failure names its bulb and every success's status is listed |
| `ApiServer.ReportSnoc` | main.py:444-449 | the results are read in resolution order: each further bulb appends its status to `updated_bulbs` or its name to `errors`, leaving the earlier entries unchanged |
| `LedControl.ScaleFacts` | led_control.py:73-75 | `int(c*brightness/255)` never brightens; 255 keeps the channel, 0 zeroes it, and it is monotone |
| `LedControl.Scale` | led_control.py:73-75 | the model of `int(c * brightness / 255)`; `LedControl.ScaleFacts` states it |
| `LedControl.ColorFrameLayout` | led_control.py:77-79 | 9 bytes: `31`, the scaled channels, the warm-white byte at index 4, `00 F0 0F`, and a valid checksum |
| `LedControl.ColorFrameDefaults` | led_control.py:65-81 | with no warm white and brightness 255 the frame is the RGB frame of the other controllers |
| `LedControl.ColorFrameSendable` | led_control.py:65-81 | the frame can be sent for a byte warm white and brightness, and fails to send for a non-byte warm white |
| `LedControl.ColorFrame` | led_control.py:77-79 | the frame of `set_color`; `LedControl.ColorFrameLayout`, `LedControl.ColorFrameDefaults` and `LedControl.ColorFrameSendable` state it |
| `LedControl.SetHexColor` | led_control.py:88-93 | ValueError for the length ⇔ the `#`-stripped string is not 6 characters, before anything is sent |
| `LedControl.SetHexColorAgrees` | led_control.py:95-99 | past the length check, a frame is sent exactly for the strings `hex_to_rgb` parses, with those channels and no warm white |
| `LedControl.SetHexColorRoundTrip` | led_control.py:83-99 | the hex `rgb_to_hex` writes is sent back as the same channels |
| `LedControl.SetHexColorLength` | led_control.py:89-93 | extra leading `#` change nothing, and a 5-character string is refused |
| `Debounce.RequestDebouncer.constructor` | backend/main.py:139 | the cache starts empty |
| `Debounce.RequestDebouncer.ShouldProcessRequest` | backend/main.py:143-155 | accepted ⇔ the key is new or its stamp is at least 100 ms old; the cache is stamped with now when accepted and unchanged when rejected |
| `Debounce.StepFacts` | backend/main.py:147-155 | the first request for a key passes and stamps now; a request touches only its own key |
| `Debounce.WindowAfterAccept` | backend/main.py:150-154 | after a pass at t, a request passes ⇔ it comes at t + 100 ms or later (exactly 100 ms passes) |
| `Debounce.RejectionKeepsWindow` | backend/main.py:150-154 | a rejected request does not move the window: it is still measured from the last accepted request |
| `Debounce.KeysSeparate` | backend/main.py:147 | different bulbs or actions have different keys when the actions contain no `:` |
| `Debounce.KeysCollide` | backend/main.py:147 | an action containing `:` can share a key with another bulb's request and then debounce it |
| `Debounce.Key` | backend/main.py:147 | the key `bulb:action`; `Debounce.KeysSeparate` and `Debounce.KeysCollide` state when keys coincide |
| `Debounce.Passes` | backend/main.py:150-154 | the 100 ms window test; `Debounce.WindowAfterAccept` and `Debounce.RejectionKeepsWindow` state it |
| `Debounce.After` | backend/main.py:150-155 | the cache after one request; `Debounce.StepFacts` and `Debounce.RequestDebouncer.ShouldProcessRequest` state it |
| `Provisioner.AtCommand` | backend/provisioner.py:178-182 | the command handed to `at_send` always ends in `\r` |
| `Provisioner.AtCommandFacts` | backend/provisioner.py:180-181 | terminating is idempotent, keeps the command as a prefix, adds at most one character, and changes nothing exactly when `\r` is already there |
| `Provisioner.DiscoverReply` | backend/provisioner.py:185-194 | a reply `ip,mac,model[,...]` gives those three fields |
| `Provisioner.DiscoverFields` | backend/provisioner.py:190-192 | a reply that splits into at least three fields gives the first three |
| `Provisioner.DiscoverRejects` | backend/provisioner.py:188-194 | no reply, an empty reply, or a reply with fewer than three fields gives None |
| `Provisioner.Discover` | backend/provisioner.py:185-194 | the model of `discover`'s reply parsing; `Provisioner.DiscoverReply`, `Provisioner.DiscoverFields` and `Provisioner.DiscoverRejects` state it |
| `Provisioner.NormalizeMacFacts` | backend/provisioner.py:271 | the normal MAC has no `:` and is its own normal form |
| `Provisioner.MacGroupsFacts` | backend/provisioner.py:272 | the pretty MAC joins the six two-character groups of the normal form with `:` |
| `Provisioner.PrettyMacRoundTrip` | backend/provisioner.py:271-272 | for a 12-character normal form the pretty form has 17 characters, splits back into its six groups, and normalises back to the normal form |
| `Provisioner.MacNameFacts` | backend/provisioner.py:275 | the bare key is tried first and the pretty form second; no name ⇔ neither is in the table |
| `Provisioner.NormalizeMac` | backend/provisioner.py:271 | `mac.replace(':', '').upper()`; `Provisioner.NormalizeMacFacts` states it |
| `Provisioner.PrettyMac` | backend/provisioner.py:272 | the colon-joined six pairs; `Provisioner.MacGroupsFacts` and `Provisioner.PrettyMacRoundTrip` state it |
| `Provisioner.MacName` | backend/provisioner.py:275 | the name lookup by bare then pretty MAC; `Provisioner.MacNameFacts` states it |
| `Provisioner.ScanForBulbs` | backend/provisioner.py:228-237 | the parsing loop returns exactly the per-line SSIDs in order |
| `Provisioner.BulbSsidsFacts` | backend/provisioner.py:229-234 | every kept SSID starts with `LEDnet`, and an SSID is kept ⇔ some line contributes it |
| `Provisioner.LineSsidOfColumns` | backend/provisioner.py:230-233 | a line contributes its fifth column exactly when it has at least five columns and that column starts with `LEDnet` |
| `Provisioner.LineSsid` | backend/provisioner.py:230-233 | the SSID one scan line contributes, at most one; `Provisioner.LineSsidOfColumns` states which |
| `Provisioner.BulbSsids` | backend/provisioner.py:228-237 | the SSIDs of all lines in order; `Provisioner.BulbSsidsFacts` and `Provisioner.ScanForBulbs` state it |
| `Provisioner.Cleanup` | backend/provisioner.py:447-451 | the clean-up keeps exactly the entries younger than the cooldown, with their stamps |
| `Provisioner.WatchCycle` | backend/provisioner.py:427-459 | a pass that completes attempts exactly `Attempted` and keeps the cleaned-up visited map; a run of `load_config`/`provision_bulb` that raises ends the pass at that SSID: it was attempted, no earlier attempted run raised, the stamps written so far stay, no stamp is dropped, and the clean-up is skipped |
| `Provisioner.VisitedKeepsEntries` | backend/provisioner.py:433-445 | the loop only adds or overwrites stamps, so every SSID stamped before the pass is still stamped after it |
| `Provisioner.CoolingDownSkipped` | backend/provisioner.py:433-440 | an SSID still in its 300 s cooldown is not provisioned again and its stamp is kept |
| `Provisioner.OnlySuccessRecords` | backend/provisioner.py:442-445 | every stamp after a pass is an old one, or the clock reading of a successful run of that SSID |
| `Provisioner.RetryAfterFailure` | backend/provisioner.py:433-445 | a failed run records nothing, so the SSID is retried at the next scan |
| `Provisioner.FirstSuccessRecorded` | backend/provisioner.py:442-445 | a successful first run records its clock reading |
| `Provisioner.Visited` | backend/provisioner.py:433-445 | the visited map after one watch pass, before clean-up; `Provisioner.CoolingDownSkipped`, `Provisioner.OnlySuccessRecords`, `Provisioner.RetryAfterFailure` and `Provisioner.FirstSuccessRecorded` state it |
| `Provisioner.Attempted` | backend/provisioner.py:433-440 | the SSIDs one watch pass provisions, those outside their cooldown; `Provisioner.CoolingDownSkipped` and `Provisioner.WatchCycle` state it |

## Left out

- Socket, UDP and TCP I/O: `_send_command`, `send_command`, the connection part of
  `get_status`/`query_status`, `at_send`, `probe_lan`, and `connect`/`disconnect` with the `sock`
  field in led_control.py. A reply is an input byte sequence and a send outcome is a boolean.
  In `execute_command` of led.py, the per-bulb choice (`Cli.Dispatch`) and the printed line
  (`Cli.ResultLine`) are modelled; the loop over the bulbs, the sends and the queries are I/O.
  Its "invalid color_brightness value" branch (led.py:240-246) has no case in the model:
  `parse_args` always returns the colour paired with a brightness, so the branch cannot be
  reached from the command line. The "Unknown target" message for an empty lookup is output
  only.
- asyncio: locks, `gather`, `create_task`, `wait_for` timeouts, the 30 s polling timeout and
  cancellation. Throttling and polling are sequential steps with an explicit clock. The older
  manager's `gather` over a set is modelled as one send per target in an unspecified order.
  The backend's `loop.time()` and `datetime.now()` are modelled as a single clock.
- FastAPI routes and pydantic validation are reduced to the `ValidPercents` precondition of one
  lemma. CORS, the WebSocket `ConnectionManager`, broadcast and backend/main.py's other routes
  are also out. Subscriber notification is a list of notified bulb names in the backend and
  services managers.
- Config loading from JSON, environment variables, argparse and `main()` entry points, signal
  handlers, logging and `print`. The error message strings of HTTP errors are not modelled.
- subprocess, `wpa_supplicant`, `ip`, temporary files and Wi-Fi association in
  backend/provisioner.py. The provisioning run itself is a boolean input.
- Bit-exact floating point:
  - HSV, brightness and percentage formulas are computed over exact reals with truncation. They
    can differ from IEEE doubles at edge cases, for example `int(100*0.29)` is 28 in Python.
  - `round(..., 1)` on h, s and v in `to_dict` is not modelled. The record carries the unrounded
    values.
- ColorMath.ParseHex: accepts plain hex digits only. Python's `int(s, 16)` also accepts a sign,
  surrounding whitespace and underscores, so such inputs count as errors in the model.
- `str.isdigit`, `upper` and `lower` are modelled on ASCII. Unicode digits and case mappings are
  not.
- `splitlines()` is modelled as a split on `\n`, so `\r\n` line ends keep their `\r` in the last
  column. `at_send`'s `decode(errors="replace").strip()` happens before `discover` sees the reply,
  so the reply is an input string.
- Provisioner.Cleanup: the clean-up reads `time.time()` once per entry, but the model uses one
  clock reading for the whole comprehension.
- An SSID with no stamp counts as stamped at time 0, as `recently_provisioned.get(ssid, 0)` does.
  A clock below 300 s would therefore skip it (see `Provisioner.RetryAfterFailure`, which
  requires a later clock).
- `refresh_all`, `force_refresh_all`, `get_bulb_state`, `get_all_states`, `get_groups` and
  `subscribe` are dict reads or `gather`s over the modelled operations.
- `start_background_polling` and `stop_background_polling` control a task and are left out. The
  loop body is `PollRound`.
- Provisioner.WatchCycle: the pass starts after `scan_for_bulbs()`. A scan that raises is a pass
  with no SSIDs and no clean-up, and the model does not represent it. `KeyboardInterrupt` and the
  `disconnect()` calls are I/O and are not modelled either.
- ApiServer.Report: an error entry is the failed bulb's name. The source writes
  `f"{name}: {str(result)}"`; exception texts are not modelled.
- BackendBulbManager.BulbManager.RefreshBulb and ServicesBulbManager.BulbManager.RefreshBulb
  require a status with byte channels. A device reply always has them (bytes 6..9), and
  `get_status` is the only producer.

## Findings

| source | as written | input that shows it | evidently intended | confidence | as-written member | corrected member |
|---|---|---|---|---|---|---|
| main.py:387-404 | `raise HTTPException(status_code=400)` for an invalid command sits inside `try: ... except Exception`, which re-raises every error as a 500 | `POST /bulbs/lamp/command` with action `dance` on a configured bulb answers 500 "Command failed: ..." | an invalid command answers 400 | high, not executed | `ApiServer.InvalidCommandAnswers500` | `ApiServer.ControlBulb` |
