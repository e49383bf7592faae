/** The drag-and-drop payload protocol: the drag source puts the handle's
    decimal text under a private MIME format, the dock area admits only drags
    carrying that format, and the drop reads the handle back with `int(...)`. */
module Payload {
  import opened Results
  import Decimal
  import opened Enumeration

  newtype byte = x: int | 0 <= x < 256

  type Bytes = seq<byte>

  /** The private MIME format that carries a window handle. */
  const HwndFormat: string := "application/x-peekdock-hwnd"

  /** A drag's MIME data: the bytes stored under each format it carries. */
  type MimeData = map<string, Bytes>

  /** `QMimeData.data(format)`: the stored bytes, or no bytes at all when the
      drag does not carry the format. */
  function DataFor(mime: MimeData, format: string): (b: Bytes)
    ensures format in mime ==> b == mime[format]
    ensures format !in mime ==> |b| == 0
  {
    if format in mime then mime[format] else []
  }

  predicate IsAscii(s: string) {
    forall i :: 0 <= i < |s| ==> s[i] < 128 as char
  }

  /** `str.encode()` of ASCII text: one byte per character, of the same code. */
  function EncodeAscii(s: string): (b: Bytes)
    requires IsAscii(s)
    ensures |b| == |s|
    ensures forall i :: 0 <= i < |s| ==> b[i] as int == s[i] as int
  {
    seq(|s|, i requires 0 <= i < |s| => s[i] as int as byte)
  }

  /** `bytes.decode()` as far as this model follows it: bytes below 0x80
      decode one-for-one; any other byte is a failure. */
  function DecodeAscii(b: Bytes): (r: Option<string>)
    ensures r.Some? <==> forall i :: 0 <= i < |b| ==> b[i] < 128
    ensures r.Some? ==> IsAscii(r.value) && EncodeAscii(r.value) == b
  {
    if forall i :: 0 <= i < |b| ==> b[i] < 128 then
      Some(seq(|b|, i requires 0 <= i < |b| => b[i] as int as char))
    else None
  }

  /** Decoding the bytes of ASCII text gives that text back. */
  lemma AsciiRoundTrip(s: string)
    requires IsAscii(s)
    ensures DecodeAscii(EncodeAscii(s)) == Some(s)
  {
    var b := EncodeAscii(s);
    assert forall i :: 0 <= i < |b| ==> b[i] < 128;
    var t := DecodeAscii(b).value;
    assert |t| == |s|;
    forall i | 0 <= i < |s|
      ensures t[i] == s[i]
    {
      assert t[i] as int == b[i] as int == s[i] as int;
    }
    assert t == s;
  }

  /** Why reading a handle back can fail: a byte that is not ASCII, or text
      that is not a decimal integer (Python's `ValueError`). */
  datatype DecodeError = NotAscii | NotDecimal

  /** `int(data.decode())`. */
  function DecodeHandle(b: Bytes): (r: Result<Handle, DecodeError>)
    ensures |b| == 0 ==> r == Err(NotDecimal)
    ensures r.Ok? <==> DecodeAscii(b).Some? && Decimal.IsDecimalText(DecodeAscii(b).value)
    ensures r.Ok? ==> Decimal.Parse(DecodeAscii(b).value) == Some(r.value)
  {
    match DecodeAscii(b)
    case None => Err(NotAscii)
    case Some(text) =>
      match Decimal.Parse(text)
      case None => Err(NotDecimal)
      case Some(h) => Ok(h)
  }

  /** `str(hwnd).encode()`. */
  function EncodeHandle(hwnd: Handle): (b: Bytes)
    ensures DecodeHandle(b) == Ok(hwnd)
  {
    var text := Decimal.Text(hwnd);
    assert IsAscii(text) by {
      forall i | 0 <= i < |text|
        ensures text[i] < 128 as char
      {
        if text[i] != '-' {
          assert Decimal.IsDigit(text[i]) by {
            if hwnd < 0 {
              assert text[1..][i - 1] == text[i];
            }
          }
        }
      }
    }
    var b := EncodeAscii(text);
    AsciiRoundTrip(text);
    Decimal.ParseText(hwnd);
    b
  }

  /** The MIME data `start_drag` builds: the handle's decimal text under the
      private format and nothing else. */
  function StartDrag(hwnd: Handle): (mime: MimeData)
    ensures mime.Keys == {HwndFormat}
    ensures DecodeHandle(DataFor(mime, HwndFormat)) == Ok(hwnd)
  {
    map[HwndFormat := EncodeHandle(hwnd)]
  }

  /** `dragEnterEvent`: `true` when the proposed action is accepted, `false`
      when the drag is ignored. */
  function DragEnter(mime: MimeData): (accepted: bool)
    ensures accepted ==> HwndFormat in mime && DataFor(mime, HwndFormat) == mime[HwndFormat]
    ensures HwndFormat in mime ==> accepted
    ensures !accepted ==> DataFor(mime, HwndFormat) == []
    ensures !accepted ==> DecodeHandle(DataFor(mime, HwndFormat)) == Err(NotDecimal)
  {
    HwndFormat in mime
  }

  /** Every drag `start_drag` begins is admitted, and a drag that is ignored
      has no handle to offer: reading its payload fails. */
  lemma StartDragAdmitted(mime: MimeData, hwnd: Handle)
    ensures DragEnter(StartDrag(hwnd))
    ensures !DragEnter(mime) ==> DecodeHandle(DataFor(mime, HwndFormat)).Err?
  {
  }

  /** Distinct handles never share a payload. */
  lemma EncodeHandleInjective(a: Handle, b: Handle)
    requires EncodeHandle(a) == EncodeHandle(b)
    ensures a == b
  {
  }

  /** The payload is exactly what `str(hwnd).encode()` gives: byte for byte the
      characters of the handle's decimal text. */
  lemma EncodeHandleIsDecimalText(hwnd: Handle)
    ensures var b := EncodeHandle(hwnd);
            var text := Decimal.Text(hwnd);
            |b| == |text| && forall i :: 0 <= i < |b| ==> b[i] as int == text[i] as int
  {
  }
}
