// The MagicHome wire frames and the status-reply decoding, as written in
// backend/led_controller.py (and, identically, controllers/led_controller.py
// and the LEDController classes of led.py and main.py). Every frame is a
// literal list of ints followed by `append(checksum)`; nothing here does I/O.

module Protocol {
  import opened Common

  /** `_checksum(data)`: `sum(data) & 0xFF`. On Python's unbounded ints `& 0xFF`
      is the non-negative remainder modulo 256, which is Dafny's `%`. */
  function Checksum(data: seq<int>): byte
  {
    Sum(data) % 256
  }

  /** `cmd.append(self._checksum(cmd))`. */
  function Seal(body: seq<int>): (frame: seq<int>)
    ensures |frame| == |body| + 1 && frame[..|body|] == body
  {
    body + [Checksum(body)]
  }

  /** What a receiver checks: the last byte is the checksum of the others. */
  predicate Sealed(frame: seq<int>)
  {
    |frame| >= 1 && frame[|frame| - 1] == Checksum(frame[..|frame| - 1])
  }

  /** Every sealed frame passes the check, and a frame that passes the check
      is the seal of its body. */
  lemma SealedIffSeal(frame: seq<int>)
    ensures Sealed(frame) <==> |frame| >= 1 && frame == Seal(frame[..|frame| - 1])
  {
    if |frame| >= 1 {
      assert frame == frame[..|frame| - 1] + [frame[|frame| - 1]];
    }
  }

  lemma SealIsSealed(body: seq<int>)
    ensures Sealed(Seal(body))
  {
    assert Seal(body)[..|body|] == body;
  }

  /** Replacing any one byte of a sealed byte frame by a different byte breaks
      the checksum: a single corrupted byte is always detectable. */
  lemma {:induction false} SingleByteCorruptionDetected(frame: seq<int>, i: nat, x: byte)
    requires Sealed(frame) && AllBytes(frame)
    requires i < |frame| && x != frame[i]
    ensures !Sealed(frame[i := x])
  {
    var n := |frame| - 1;
    var body := frame[..n];
    if i < n {
      assert frame[i := x][..n] == body[i := x];
      SumUpdate(body, i, x);
      assert frame[i := x][n] == frame[n];
      var d := x - frame[i];
      assert -256 < d < 256 && d != 0;
      assert Sum(body[i := x]) == Sum(body) + d;
    } else {
      assert frame[i := x][..n] == body;
    }
  }

  /** `bytes(data)`: fails (raises) when some element is not in 0..255. */
  function ToWire(frame: seq<int>): (wire: Option<seq<byte>>)
    ensures wire.Some? <==> AllBytes(frame)
    ensures wire.Some? ==> wire.value == frame
  {
    if AllBytes(frame) then Some(seq(|frame|, i requires 0 <= i < |frame| => frame[i] as byte))
    else None
  }

  /** `power_on` / `power_off`: `[0x71, 0x23 or 0x24, 0x0F] + checksum`. */
  function PowerFrame(on: bool): (frame: seq<int>)
    ensures on ==> frame == [0x71, 0x23, 0x0F, 0xA3]
    ensures !on ==> frame == [0x71, 0x24, 0x0F, 0xA4]
  {
    var body := [0x71, if on then 0x23 else 0x24, 0x0F];
    SumOfBody(body);
    Seal(body)
  }

  /** `set_rgb(r, g, b)`: `[0x31, r, g, b, 0, 0, 0xF0, 0x0F] + checksum`. */
  function RgbFrame(r: int, g: int, b: int): seq<int>
  {
    Seal([0x31, r, g, b, 0x00, 0x00, 0xF0, 0x0F])
  }

  /** `set_warm_white(w)`: `[0x31, 0, 0, 0, w, 0, 0x0F, 0xF0] + checksum`. The
      two trailer bytes are in the opposite order from the RGB frame. */
  function WarmWhiteFrame(w: int): seq<int>
  {
    Seal([0x31, 0x00, 0x00, 0x00, w, 0x00, 0x0F, 0xF0])
  }

  /** The sum of a short frame body (at most 13 elements), element by
      element; lets the verifier evaluate `Sum` on the literal frames. */
  lemma SumOfBody(s: seq<int>)
    requires |s| <= 13
    ensures |s| == 3 ==> Sum(s) == s[0] + s[1] + s[2]
    ensures |s| == 8 ==> Sum(s) == s[0] + s[1] + s[2] + s[3] + s[4] + s[5] + s[6] + s[7]
    ensures |s| == 13 ==>
              Sum(s) == s[0] + s[1] + s[2] + s[3] + s[4] + s[5] + s[6]
                        + s[7] + s[8] + s[9] + s[10] + s[11] + s[12]
  {
    assert s[..0] == [];
    assert s[..|s|] == s;
    if |s| == 3 {
      SumStep(s, 0); SumStep(s, 1); SumStep(s, 2);
    } else if |s| == 8 {
      SumStep(s, 0); SumStep(s, 1); SumStep(s, 2); SumStep(s, 3);
      SumStep(s, 4); SumStep(s, 5); SumStep(s, 6); SumStep(s, 7);
    } else if |s| == 13 {
      SumStep(s, 0); SumStep(s, 1); SumStep(s, 2); SumStep(s, 3); SumStep(s, 4);
      SumStep(s, 5); SumStep(s, 6); SumStep(s, 7); SumStep(s, 8); SumStep(s, 9);
      SumStep(s, 10); SumStep(s, 11); SumStep(s, 12);
    }
  }

  /** The fixed status query `81 8A 8B 96`. */
  const QueryFrame: seq<int> := [0x81, 0x8A, 0x8B, 0x96]

  /** The RGB frame carries the channels at bytes 1..3, a zero warm-white
      byte, the trailer `F0 0F`, and a checksum equal to
      `(r + g + b + 0x30) mod 256`. */
  lemma RgbFrameLayout(r: int, g: int, b: int)
    ensures |RgbFrame(r, g, b)| == 9 && Sealed(RgbFrame(r, g, b))
    ensures RgbFrame(r, g, b)[..8] == [0x31, r, g, b, 0, 0, 0xF0, 0x0F]
    ensures RgbFrame(r, g, b)[8] == (r + g + b + 0x30) % 256
  {
    var body := [0x31, r, g, b, 0x00, 0x00, 0xF0, 0x0F];
    SealIsSealed(body);
    SumOfBody(body);
  }

  /** The warm-white frame carries `w` at byte 4, zero channels, the trailer
      `0F F0`, and a checksum equal to `(w + 0x30) mod 256`. It is the frame
      an RGB-order encoding would give for (0, 0, 0, w) with bytes 6 and 7
      swapped, and the swap leaves the checksum unchanged. */
  lemma WarmWhiteFrameLayout(w: int)
    ensures |WarmWhiteFrame(w)| == 9 && Sealed(WarmWhiteFrame(w))
    ensures WarmWhiteFrame(w)[..8] == [0x31, 0, 0, 0, w, 0, 0x0F, 0xF0]
    ensures WarmWhiteFrame(w)[8] == (w + 0x30) % 256
    ensures WarmWhiteFrame(w) == Seal([0x31, 0, 0, 0, w, 0, 0xF0, 0x0F])[6 := 0x0F][7 := 0xF0]
  {
    var body := [0x31, 0x00, 0x00, 0x00, w, 0x00, 0x0F, 0xF0];
    var swapped := [0x31, 0x00, 0x00, 0x00, w, 0x00, 0xF0, 0x0F];
    SealIsSealed(body);
    SumOfBody(body);
    SumOfBody(swapped);
  }

  /** `bytes(...)` accepts the RGB frame exactly when the three channels are
      bytes (the checksum always is). */
  lemma RgbFrameBytes(r: int, g: int, b: int)
    ensures AllBytes(RgbFrame(r, g, b)) <==> 0 <= r < 256 && 0 <= g < 256 && 0 <= b < 256
  {
    RgbFrameLayout(r, g, b);
    var f := RgbFrame(r, g, b);
    assert f[1] == r && f[2] == g && f[3] == b;
  }

  /** `bytes(...)` accepts the warm-white frame exactly when `w` is a byte. */
  lemma WarmWhiteFrameBytes(w: int)
    ensures AllBytes(WarmWhiteFrame(w)) <==> 0 <= w < 256
  {
    WarmWhiteFrameLayout(w);
    assert WarmWhiteFrame(w)[4] == w;
  }

  /** The power frames are always accepted. */
  lemma PowerFrameBytes(on: bool)
    ensures AllBytes(PowerFrame(on))
  {
  }

  /** The query's last byte is the checksum of its first three. */
  lemma QueryFrameSealed()
    ensures Sealed(QueryFrame)
  {
    SumOfBody(QueryFrame[..3]);
  }

  /** The decoded reply of led.py and main.py (`query_status`). */
  datatype Reading = Reading(on: bool, red: byte, green: byte, blue: byte, warmWhite: byte)

  /** The record `get_status` returns in the backend and controllers copies. */
  datatype Status = Status(online: bool, on: bool, r: byte, g: byte, b: byte, warmWhite: byte)

  const Offline: Status := Status(false, false, 0, 0, 0, 0)

  /** The length test and fixed-offset reads shared by every copy: a reply of
      at least 14 bytes gives power from byte 2 and channels from bytes 6..9. */
  function DecodeReply(resp: seq<byte>): (rd: Option<Reading>)
    ensures rd.Some? <==> |resp| >= 14
    ensures rd.Some? ==> (rd.value.on <==> resp[2] == 0x23)
    ensures rd.Some? ==> [rd.value.red, rd.value.green, rd.value.blue, rd.value.warmWhite] == resp[6..10]
  {
    if |resp| >= 14 then Some(Reading(resp[2] == 0x23, resp[6], resp[7], resp[8], resp[9]))
    else None
  }

  /** led.py / main.py `query_status`: `reply` is what the socket read
      returned, `None` when the connection or the read failed. */
  function QueryStatus(reply: Option<seq<byte>>): (rd: Option<Reading>)
    ensures rd.Some? <==> reply.Some? && |reply.value| >= 14
  {
    match reply
    case None => None
    case Some(resp) => DecodeReply(resp)
  }

  /** backend/controllers `get_status`: never "no answer"; a failure or a
      short reply gives the all-zero offline record. */
  function GetStatus(reply: Option<seq<byte>>): (st: Status)
    ensures st.online <==> reply.Some? && |reply.value| >= 14
    ensures !st.online ==> st == Offline
    ensures st.online ==> st.on == (reply.value[2] == 0x23)
    ensures st.online ==> [st.r, st.g, st.b, st.warmWhite] == reply.value[6..10]
  {
    match QueryStatus(reply)
    case None => Offline
    case Some(rd) => Status(true, rd.on, rd.red, rd.green, rd.blue, rd.warmWhite)
  }

  /** Decoding reads only bytes 2 and 6..9: two long-enough replies that agree
      there decode alike, whatever their other bytes, trailing bytes and
      checksum. */
  lemma DecodeReadsOnlyFields(a: seq<byte>, b: seq<byte>)
    requires |a| >= 14 && |b| >= 14
    requires a[2] == b[2] && a[6..10] == b[6..10]
    ensures DecodeReply(a) == DecodeReply(b)
  {
    assert a[6] == a[6..10][0] && a[7] == a[6..10][1] && a[8] == a[6..10][2] && a[9] == a[6..10][3];
    assert b[6] == b[6..10][0] && b[7] == b[6..10][1] && b[8] == b[6..10][2] && b[9] == b[6..10][3];
  }

  /** The reply's checksum is never checked: a 14-byte reply whose last byte
      is wrong is still decoded as an online status. */
  lemma CorruptReplyAccepted()
    ensures var resp: seq<byte> := [0x81, 0x33, 0x23, 0x61, 0x23, 0x01, 0xFF, 0, 0, 0, 0x04, 0, 0xF0, 0];
      !Sealed(resp) && GetStatus(Some(resp)) == Status(true, true, 0xFF, 0, 0, 0)
  {
    var resp: seq<byte> := [0x81, 0x33, 0x23, 0x61, 0x23, 0x01, 0xFF, 0, 0, 0, 0x04, 0, 0xF0, 0];
    var body := resp[..13];
    SumOfBody(body);
  }
}
