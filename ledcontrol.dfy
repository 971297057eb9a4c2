// The standalone script led_control.py: its colour frame, which scales the
// channels by a 0..255 brightness and carries a caller-supplied warm-white
// byte, and the hex-string front end `set_hex_color`. The checksum and the
// power frames are the ones in `Protocol`. The socket the class keeps in
// `sock` is not modelled: a command is the frame it would send.

module LedControl {
  import opened Common
  import opened Text
  import opened Protocol
  import opened ColorMath

  /** One channel of `set_color`: `int((c * brightness) / 255)`. For the
      integers involved the float quotient truncates to the integer one. */
  function Scale(c: int, brightness: int): int
  {
    TruncDiv(c * brightness, 255)
  }

  /** On bytes, scaling never brightens, full brightness keeps the channel,
      zero brightness turns it off, and a brighter channel stays at least
      as bright. */
  lemma ScaleFacts(c: byte, brightness: byte)
    ensures 0 <= Scale(c, brightness) <= c
    ensures Scale(c, 255) == c && Scale(c, 0) == 0
    ensures forall d: byte | c <= d :: Scale(c, brightness) <= Scale(d, brightness)
  {
    ProductBound(c, brightness, c, 255, c * brightness, c * 255);
    forall d: byte | c <= d ensures Scale(c, brightness) <= Scale(d, brightness) {
      ProductBound(c, brightness, d, brightness, c * brightness, d * brightness);
    }
  }

  /** A product of naturals grows with both factors, and so does its
      quotient by 255. */
  lemma ProductBound(a: int, b: int, x: int, y: int, u: int, v: int)
    requires 0 <= a <= x && 0 <= b <= y && u == a * b && v == x * y
    ensures 0 <= u <= v && u / 255 <= v / 255
  {
    assert a * b <= x * b;
    assert x * b <= x * y;
  }

  /** The frame `set_color(red, green, blue, warm_white, brightness)` sends:
      the RGB frame's layout with the warm-white byte in the fifth place. */
  function ColorFrame(r: int, g: int, b: int, ww: int, brightness: int): seq<int>
  {
    Seal([0x31, Scale(r, brightness), Scale(g, brightness), Scale(b, brightness), ww, 0x00, 0xF0, 0x0F])
  }

  /** Nine bytes: the header, the three scaled channels, the warm-white byte
      at index 4, `0, F0, 0F`, and a checksum that checks. */
  lemma ColorFrameLayout(r: int, g: int, b: int, ww: int, brightness: int)
    ensures var f := ColorFrame(r, g, b, ww, brightness);
      |f| == 9 && f[0] == 0x31 && f[1..4] == [Scale(r, brightness), Scale(g, brightness), Scale(b, brightness)] &&
      f[4] == ww && f[5..8] == [0x00, 0xF0, 0x0F] && Sealed(f)
  {
    SealIsSealed([0x31, Scale(r, brightness), Scale(g, brightness), Scale(b, brightness), ww, 0x00, 0xF0, 0x0F]);
  }

  /** With the default arguments (no warm white, brightness 255) the frame
      is the one `set_rgb` of the other controllers sends. */
  lemma ColorFrameDefaults(r: byte, g: byte, b: byte)
    ensures ColorFrame(r, g, b, 0, 255) == RgbFrame(r, g, b)
  {
    ScaleFacts(r, 255);
    ScaleFacts(g, 255);
    ScaleFacts(b, 255);
  }

  /** `bytes(data)` accepts the frame for byte channels, a byte warm white
      and a brightness up to 255, and rejects it for a warm-white value
      that is not a byte. */
  lemma ColorFrameSendable(r: byte, g: byte, b: byte, ww: int, brightness: int)
    ensures 0 <= ww < 256 && 0 <= brightness < 256 ==> ToWire(ColorFrame(r, g, b, ww, brightness)).Some?
    ensures !(0 <= ww < 256) ==> ToWire(ColorFrame(r, g, b, ww, brightness)).None?
  {
    var f := ColorFrame(r, g, b, ww, brightness);
    ColorFrameLayout(r, g, b, ww, brightness);
    if 0 <= brightness < 256 {
      ScaleFacts(r, brightness);
      ScaleFacts(g, brightness);
      ScaleFacts(b, brightness);
    }
    assert f[4] == ww;
  }

  /** Why `set_hex_color` raises instead of sending. */
  datatype HexColorError = WrongLength | NotHexDigits

  /** What `set_hex_color` does: send a frame, or raise ValueError before
      sending anything. */
  datatype HexColorOutcome = Frame(frame: seq<int>) | Rejected(error: HexColorError)

  /** `set_hex_color(hex_color, brightness)`: strip every leading `#`,
      insist on six characters, parse the three pairs and send them with no
      warm white. */
  function SetHexColor(hex: string, brightness: int): (o: HexColorOutcome)
    ensures o == Rejected(WrongLength) <==> |LStrip(hex, '#')| != 6
  {
    var t := LStrip(hex, '#');
    if |t| != 6 then Rejected(WrongLength)
    else
      var r, g, b := ParseHex(t[0..2]), ParseHex(t[2..4]), ParseHex(t[4..6]);
      if r.Some? && g.Some? && b.Some? then Frame(ColorFrame(r.value, g.value, b.value, 0, brightness))
      else Rejected(NotHexDigits)
  }

  /** Past the length check, `set_hex_color` accepts exactly the strings
      `hex_to_rgb` parses, and sends their channels. */
  lemma SetHexColorAgrees(hex: string, brightness: int)
    requires |LStrip(hex, '#')| == 6
    ensures SetHexColor(hex, brightness).Frame? <==> HexToRgb(hex).Some?
    ensures HexToRgb(hex).Some? ==>
              var c := HexToRgb(hex).value;
              SetHexColor(hex, brightness) == Frame(ColorFrame(c.r, c.g, c.b, 0, brightness))
  {
    var t := LStrip(hex, '#');
    assert Slice(t, 0, 2) == t[0..2] && Slice(t, 2, 4) == t[2..4] && Slice(t, 4, 6) == t[4..6];
  }

  /** What `rgb_to_hex` writes, `set_hex_color` sends back unchanged (up to
      the brightness scaling). */
  lemma SetHexColorRoundTrip(r: byte, g: byte, b: byte, brightness: int)
    ensures SetHexColor(RgbToHex(r, g, b), brightness) == Frame(ColorFrame(r, g, b, 0, brightness))
  {
    var s := RgbToHex(r, g, b);
    RgbToHexFormat(r, g, b);
    assert s[1] != '#';
    assert LStrip(s, '#') == s[1..];
    HexRoundTrip(r, g, b);
    SetHexColorAgrees(s, brightness);
  }

  /** A string of any other length is refused however it is padded with
      `#`, so nothing is sent. */
  lemma SetHexColorLength(hex: string, brightness: int)
    ensures SetHexColor("#" + hex, brightness) == SetHexColor(hex, brightness)
    ensures |hex| == 5 && hex[0] != '#' ==> SetHexColor(hex, brightness) == Rejected(WrongLength)
  {
    assert ("#" + hex)[1..] == hex;
    if |hex| == 5 && hex[0] != '#' {
      assert LStrip(hex, '#') == hex;
    }
  }
}
