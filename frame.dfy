/**
 * The serial framing of `sendData`: `<<START>>`, the display index in
 * decimal, `|`, the raw payload and `<<END>>.....`, written in one call and
 * only while the port is connected.
 */
module Frame {
  import opened Common
  import Decimal

  const StartMarker: string := "<<START>>"
  const EndMarker: string := "<<END>>....."
  const Separator: char := '|'

  /** The header `<<START>><idx>|` that `fmt.Sprintf("<<START>>%d|", idx)` produces. */
  function Header(displayIdx: int): (h: string)
    ensures IsAscii(h)
    ensures |h| == |StartMarker| + |Decimal.FormatInt(displayIdx)| + 1
  {
    StartMarker + Decimal.FormatInt(displayIdx) + [Separator]
  }

  /** The bytes `sendData` hands to the port for one display. */
  function FrameOf(displayIdx: int, data: seq<byte>): seq<byte>
  {
    Ascii(Header(displayIdx)) + data + Ascii(EndMarker)
  }

  /** The first position of `x` in `b`, if any. */
  function FindByte(b: seq<byte>, x: byte): (r: Option<nat>)
    ensures r.None? ==> forall j :: 0 <= j < |b| ==> b[j] != x
    ensures r.Some? ==> r.value < |b| && b[r.value] == x && forall j :: 0 <= j < r.value ==> b[j] != x
  {
    if b == [] then None
    else if b[0] == x then Some(0)
    else match FindByte(b[1..], x)
      case None => None
      case Some(p) => Some(p + 1)
  }

  /**
   * A receiver for one complete frame: check both markers, split the body at
   * the first `|`, read the index back as decimal and keep the rest as payload.
   */
  function DecodeFrame(f: seq<byte>): Option<(int, seq<byte>)>
  {
    var s := |StartMarker|;
    var e := |EndMarker|;
    if |f| < s + e || f[..s] != Ascii(StartMarker) || f[|f| - e..] != Ascii(EndMarker) then None
    else
      var body := f[s..|f| - e];
      match FindByte(body, Separator as byte)
      case None => None
      case Some(p) =>
        match Decimal.ParseInt(Chars(body[..p]))
        case None => None
        case Some(idx) => Some((idx, body[p + 1..]))
  }

  /** The frame layout: the markers at both ends and the payload unchanged between them. */
  lemma FrameLayout(displayIdx: int, data: seq<byte>)
    ensures var f := FrameOf(displayIdx, data);
            var h := |Header(displayIdx)|;
            && |f| == h + |data| + |EndMarker|
            && f[..|StartMarker|] == Ascii(StartMarker)
            && f[|StartMarker|..h - 1] == Ascii(Decimal.FormatInt(displayIdx))
            && f[h - 1] == Separator as byte
            && f[h..h + |data|] == data
            && f[h + |data|..] == Ascii(EndMarker)
  {
    var f := FrameOf(displayIdx, data);
    var h := Header(displayIdx);
    assert Ascii(h)[..|StartMarker|] == f[..|StartMarker|];
    assert Ascii(h)[|StartMarker|..|h| - 1] == f[|StartMarker|..|h| - 1];
  }

  /** A frame decodes back to the display index and the payload it was built from. */
  lemma DecodeFrameOf(displayIdx: int, data: seq<byte>)
    ensures DecodeFrame(FrameOf(displayIdx, data)) == Some((displayIdx, data))
  {
    var f := FrameOf(displayIdx, data);
    var digits := Decimal.FormatInt(displayIdx);
    var s := |StartMarker|;
    var e := |EndMarker|;
    FrameLayout(displayIdx, data);
    var body := f[s..|f| - e];
    var p := |digits|;
    assert body[..p] == Ascii(digits);
    assert body[p] == Separator as byte;
    assert body[p + 1..] == data;
    forall j | 0 <= j < p
      ensures body[j] != Separator as byte
    {
      assert body[j] as int == digits[j] as int;
    }
    assert FindByte(body, Separator as byte) == Some(p);
    AsciiChars(digits);
    Decimal.ParseFormat(displayIdx);
  }

  /** The frame of display 3 carrying the two bytes AB CD. */
  lemma FrameExample()
    ensures FrameOf(3, [0xAB, 0xCD]) == Ascii("<<START>>3|") + [0xAB, 0xCD] + Ascii("<<END>>.....")
  {
  }

  /**
   * The payload is not escaped: a payload that itself spells the end marker
   * puts a complete end marker inside the frame, before the real one.
   */
  lemma EndMarkerInPayload()
    ensures var f := FrameOf(0, Ascii(EndMarker));
            f[11..23] == Ascii(EndMarker) && |f| == 35
  {
  }

  /** The serial side of the connection: the `connected` flag and every byte written so far. */
  class Serial {
    var connected: bool
    var written: seq<byte>

    constructor (connected: bool)
      ensures this.connected == connected && written == []
    {
      this.connected := connected;
      written := [];
    }
  }

  /**
   * `sendData`: when the port is connected, one frame is appended to what
   * the port has received; otherwise nothing is written.
   */
  method SendData(serial: Serial, displayIdx: int, data: seq<byte>)
    modifies serial`written
    ensures serial.written == if serial.connected then old(serial.written) + FrameOf(displayIdx, data)
                              else old(serial.written)
  {
    if serial.connected {
      var frame := Ascii(Header(displayIdx)) + data;
      frame := frame + Ascii(EndMarker);
      serial.written := serial.written + frame;
    }
  }
}
