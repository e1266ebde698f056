/**
 * The QJB1 canvas: which frame to show at the current time, and how the
 * frame's JPEG bytes become the data URL the image element loads (bytes to
 * a binary string, `btoa` of that string, and the `data:` prefix).
 */
module Qjb1Canvas {
  import opened Wrappers
  import opened Numeric
  import opened Bytes
  import Base64

  /** `Math.round(currentTime * fps)`: the nearest frame, halves rounding up. */
  function CurrentFrame(currentTime: real, fps: real): (f: int)
    ensures f as real - 0.5 <= currentTime * fps < f as real + 0.5
  {
    RoundHalfUp(currentTime * fps)
  }

  /** At the exact time of frame `f` the canvas shows frame `f`. */
  lemma CurrentFrameAtFrameTime(f: int, fps: real)
    requires fps > 0.0
    ensures CurrentFrame(f as real / fps, fps) == f
  {
    assert (f as real / fps) * fps == f as real;
  }

  /** Between the midpoints around frame `f`'s time, the canvas shows frame `f`. */
  lemma CurrentFrameNearest(f: int, currentTime: real, fps: real)
    requires f as real - 0.5 <= currentTime * fps < f as real + 0.5
    ensures CurrentFrame(currentTime, fps) == f
  {
  }

  /** A "binary string": every character's code is a byte. */
  predicate IsBinaryString(s: string)
  {
    forall i :: 0 <= i < |s| ==> s[i] as int < 256
  }

  /** The bytes a binary string stands for, one per character. */
  function CharCodes(s: string): (b: seq<Byte>)
    requires IsBinaryString(s)
    ensures |b| == |s| && forall i :: 0 <= i < |s| ==> b[i] == s[i] as int
  {
    seq(|s|, i requires 0 <= i < |s| => s[i] as int)
  }

  /**
   * The string built by `String.fromCharCode` over each byte in turn: one
   * character per byte, whose code is that byte.
   */
  method BytesToBinaryString(bytes: seq<Byte>) returns (binary: string)
    ensures |binary| == |bytes|
    ensures forall i :: 0 <= i < |bytes| ==> binary[i] as int == bytes[i]
    ensures IsBinaryString(binary) && CharCodes(binary) == bytes
  {
    binary := "";
    var i := 0;
    while i < |bytes|
      invariant 0 <= i <= |bytes|
      invariant |binary| == i
      invariant forall k :: 0 <= k < i ==> binary[k] as int == bytes[k]
    {
      binary := binary + [bytes[i] as char];
      i := i + 1;
    }
  }

  /**
   * `window.btoa`: the base64 of the string's character codes; a character
   * outside Latin-1 throws `InvalidCharacterError`.
   */
  function Btoa(s: string): (r: Result<string>)
    ensures r.Success? <==> IsBinaryString(s)
    ensures r.Success? ==> r.value == Base64.Encode(CharCodes(s))
  {
    if IsBinaryString(s) then Success(Base64.Encode(CharCodes(s)))
    else Failure("InvalidCharacterError")
  }

  /** `arrayBufferToBase64`: the base64 of the bytes, which never fails. */
  method ArrayBufferToBase64(bytes: seq<Byte>) returns (b64: string)
    ensures b64 == Base64.Encode(bytes)
    ensures |b64| == 4 * ((|bytes| + 2) / 3)
  {
    var binary := BytesToBinaryString(bytes);
    var r := Btoa(binary);
    b64 := r.value;
    Base64.EncodeLength(bytes);
  }

  const JPEG_DATA_PREFIX: string := "data:image/jpeg;base64,"

  /** The image source for a frame: a base64 `data:` URL of JPEG media type. */
  function DataUrl(b64: string): (url: string)
    ensures |url| == |JPEG_DATA_PREFIX| + |b64|
    ensures url[..|JPEG_DATA_PREFIX|] == JPEG_DATA_PREFIX && url[|JPEG_DATA_PREFIX|..] == b64
  {
    JPEG_DATA_PREFIX + b64
  }

  /** The frame's data URL, from its bytes. */
  method FrameDataUrl(frameImage: seq<Byte>) returns (url: string)
    ensures url == DataUrl(Base64.Encode(frameImage))
  {
    var b64 := ArrayBufferToBase64(frameImage);
    url := DataUrl(b64);
  }

  /** Decoding what follows the prefix of a frame's data URL gives back the frame's bytes. */
  lemma DataUrlRoundTrip(frameImage: seq<Byte>)
    ensures var url := DataUrl(Base64.Encode(frameImage));
      && url[..|JPEG_DATA_PREFIX|] == JPEG_DATA_PREFIX
      && Base64.Decode(url[|JPEG_DATA_PREFIX|..]) == Some(frameImage)
  {
    Base64.DecodeEncode(frameImage);
  }
}
