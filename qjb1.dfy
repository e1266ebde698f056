/**
 * The QJB1 video container: a magic line, a one-line JSON header, an index
 * of 4-byte little-endian frame sizes, then the JPEG frames back to back.
 * The writer reserves the index as zeros, writes the frames, then seeks back
 * and rewrites the index in place.
 */
module Qjb1 {
  import opened Wrappers
  import opened Numeric
  import opened Bytes
  import opened Json

  /** A file opened for binary writing: its bytes and the write position. */
  class FileBuffer {
    var contents: seq<Byte>
    var position: nat

    /** `open(output, 'wb')`: empty, positioned at 0. */
    constructor ()
      ensures contents == [] && position == 0
    {
      contents := [];
      position := 0;
    }

    /** `f.write(data)`: overwrites from the position on, extending the file as needed. */
    method Write(data: seq<Byte>)
      modifies this
      ensures contents == Overwrite(old(contents), old(position), data)
      ensures position == old(position) + |data|
    {
      contents := Overwrite(contents, position, data);
      position := position + |data|;
    }

    /** `f.seek(p)`. */
    method Seek(p: nat)
      modifies this
      ensures position == p && contents == old(contents)
    {
      position := p;
    }

    /** `f.tell()`. */
    function Tell(): nat
      reads this
    {
      position
    }
  }

  /**
   * The file after writing `data` at `pos`: bytes in `[pos, pos + |data|)`
   * come from `data`, earlier and later ones are kept, and a gap before `pos`
   * reads as zeros.
   */
  function Overwrite(c: seq<Byte>, pos: nat, data: seq<Byte>): (r: seq<Byte>)
    ensures |r| == MaxInt(|c|, pos + |data|)
    ensures forall k :: 0 <= k < |r| ==>
      r[k] == if pos <= k < pos + |data| then data[k - pos] else if k < |c| then c[k] else 0
  {
    var padded := if pos > |c| then c + Zeros(pos - |c|) else c;
    padded[..pos] + data + (if pos + |data| < |padded| then padded[pos + |data|..] else [])
  }

  /** Writing at the end appends. */
  lemma OverwriteAppend(c: seq<Byte>, data: seq<Byte>)
    ensures Overwrite(c, |c|, data) == c + data
  {
    var r := Overwrite(c, |c|, data);
    assert forall k :: 0 <= k < |r| ==> r[k] == (c + data)[k];
  }

  /** Writing over a block of the same length replaces just that block. */
  lemma OverwriteBlock(a: seq<Byte>, m: seq<Byte>, b: seq<Byte>, data: seq<Byte>)
    requires |m| == |data|
    ensures Overwrite(a + m + b, |a|, data) == a + data + b
  {
    var r := Overwrite(a + m + b, |a|, data);
    assert forall k :: 0 <= k < |r| ==> r[k] == (a + data + b)[k];
  }

  /** The magic first line. */
  const MAGIC: string := "qjb1.ecv9vh5lt\n"

  /** Text made of 7-bit characters, which UTF-8 encodes one byte each. */
  predicate IsAscii(s: string)
  {
    forall k :: 0 <= k < |s| ==> s[k] as int < 128
  }

  /** `bytes(s, 'utf-8')` for ASCII text. */
  function Ascii(s: string): (r: seq<Byte>)
    requires IsAscii(s)
    ensures |r| == |s| && forall k :: 0 <= k < |s| ==> r[k] == s[k] as int
  {
    seq(|s|, k requires 0 <= k < |s| => s[k] as int as Byte)
  }

  /** The frame count: `int(duration_sec * fps)` when a duration is given, else the video's own count. */
  function NumFrames(frameCount: nat, durationSec: Option<real>, fps: real): (r: int)
    ensures durationSec.None? ==> r == frameCount
    ensures durationSec.Some? && durationSec.value * fps >= 0.0 ==>
      0 <= r && r as real <= durationSec.value * fps < r as real + 1.0
  {
    if durationSec.Some? then Trunc(durationSec.value * fps) else frameCount
  }

  /** The header dictionary. */
  function Header(width: int, height: int, fps: real, numFrames: int, quality: int): (r: Json)
    ensures r.Obj? && r.fields.Keys == {"format", "video_width", "video_height", "frames_per_second", "num_frames", "quality"}
    ensures r.fields["format"] == Str("qjb1") && r.fields["num_frames"] == Int(numFrames)
    ensures r.fields["video_width"] == Int(width) && r.fields["video_height"] == Int(height)
    ensures r.fields["frames_per_second"] == Float(fps) && r.fields["quality"] == Int(quality)
  {
    Obj(map[
      "format" := Str("qjb1"),
      "video_width" := Int(width),
      "video_height" := Int(height),
      "frames_per_second" := Float(fps),
      "num_frames" := Int(numFrames),
      "quality" := Int(quality)])
  }

  /** The concatenation of the blobs. */
  function Concat(blobs: seq<seq<Byte>>): (r: seq<Byte>)
  {
    if |blobs| == 0 then [] else Concat(blobs[..|blobs| - 1]) + blobs[|blobs| - 1]
  }

  /** The total length of the first `j` blobs. */
  function SizeSum(blobs: seq<seq<Byte>>, j: nat): nat
    requires j <= |blobs|
  {
    if j == 0 then 0 else SizeSum(blobs, j - 1) + |blobs[j - 1]|
  }

  /** All frames fit a 4-byte size entry. */
  predicate SizesFit(blobs: seq<seq<Byte>>)
  {
    forall j :: 0 <= j < |blobs| ==> |blobs[j]| < TWO_TO_32
  }

  /** The index: each frame's size as 4 little-endian bytes. */
  function Index(blobs: seq<seq<Byte>>): (r: seq<Byte>)
    requires SizesFit(blobs)
    ensures |r| == 4 * |blobs|
  {
    if |blobs| == 0 then [] else Index(blobs[..|blobs| - 1]) + LE32(|blobs[|blobs| - 1]|)
  }

  /** The bytes before the index: magic line, header text, newline. */
  function Preamble(headerText: string): (r: seq<Byte>)
    requires IsAscii(headerText)
    ensures |r| == |MAGIC| + |headerText| + 1
  {
    Ascii(MAGIC) + Ascii(headerText) + Ascii("\n")
  }

  /** The finished file. */
  function Qjb1File(headerText: string, jpegs: seq<seq<Byte>>): seq<Byte>
    requires IsAscii(headerText) && SizesFit(jpegs)
  {
    Preamble(headerText) + Index(jpegs) + Concat(jpegs)
  }

  /** The file when the index rewrite stops before entry `m`: the first `m` entries are sizes, the rest zeros. */
  function PartialFile(headerText: string, jpegs: seq<seq<Byte>>, m: nat): seq<Byte>
    requires IsAscii(headerText) && m <= |jpegs| && SizesFit(jpegs[..m])
  {
    Preamble(headerText) + Index(jpegs[..m]) + Zeros(4 * (|jpegs| - m)) + Concat(jpegs)
  }

  /**
   * `create_qjb1` on the frames the video yields, already JPEG-encoded, with
   * the header text `dumps` gives. The file is the preamble, the index and
   * the frames. When a frame is 2^32 bytes or more the size cannot be
   * written: the rewrite stops there with `ok` false, leaving the earlier
   * entries rewritten and the rest zero.
   */
  method CreateQjb1(width: int, height: int, fps: real, frameCount: nat, durationSec: Option<real>,
                    quality: int, jpegs: seq<seq<Byte>>, dumps: Json -> string)
    returns (f: FileBuffer, ok: bool)
    requires IsAscii(dumps(Header(width, height, fps, NumFrames(frameCount, durationSec, fps), quality)))
    requires |jpegs| == MaxInt(0, NumFrames(frameCount, durationSec, fps))
    ensures fresh(f)
    ensures ok <==> SizesFit(jpegs)
    ensures var headerText := dumps(Header(width, height, fps, NumFrames(frameCount, durationSec, fps), quality));
      ok ==> f.contents == Qjb1File(headerText, jpegs)
    ensures var headerText := dumps(Header(width, height, fps, NumFrames(frameCount, durationSec, fps), quality));
      !ok ==> exists m :: 0 <= m < |jpegs| && |jpegs[m]| >= TWO_TO_32 && SizesFit(jpegs[..m])
                          && f.contents == PartialFile(headerText, jpegs, m)
  {
    var numFrames := NumFrames(frameCount, durationSec, fps);
    var headerText := dumps(Header(width, height, fps, numFrames, quality));
    f := new FileBuffer();
    WritePreamble(f, headerText);
    var byteNum := f.Tell();
    WriteIndexPlaceholder(f, Preamble(headerText), |jpegs|);
    var sizes := WriteFrames(f, Preamble(headerText) + Zeros(4 * |jpegs|), jpegs);
    f.Seek(byteNum);
    ok := RewriteIndex(f, headerText, jpegs, sizes);
  }

  /** Writes the magic line, the header text and a newline to an empty file. */
  method WritePreamble(f: FileBuffer, headerText: string)
    requires IsAscii(headerText) && f.contents == [] && f.position == 0
    modifies f
    ensures f.contents == Preamble(headerText) && f.position == |f.contents|
  {
    OverwriteAppend(f.contents, Ascii(MAGIC));
    f.Write(Ascii(MAGIC));
    OverwriteAppend(f.contents, Ascii(headerText));
    f.Write(Ascii(headerText));
    OverwriteAppend(f.contents, Ascii("\n"));
    f.Write(Ascii("\n"));
  }

  /** Appends `n` zero entries of four bytes each. */
  method WriteIndexPlaceholder(f: FileBuffer, before: seq<Byte>, n: nat)
    requires f.contents == before && f.position == |before|
    modifies f
    ensures f.contents == before + Zeros(4 * n) && f.position == |f.contents|
  {
    for j := 0 to n
      invariant f.contents == before + Zeros(4 * j) && f.position == |f.contents|
    {
      OverwriteAppend(f.contents, LE32(0));
      f.Write(LE32(0));
      assert Zeros(4 * j) + LE32(0) == Zeros(4 * (j + 1));
    }
  }

  /** Appends the frames in order and returns their sizes. */
  method WriteFrames(f: FileBuffer, before: seq<Byte>, jpegs: seq<seq<Byte>>) returns (sizes: seq<nat>)
    requires f.contents == before && f.position == |before|
    modifies f
    ensures f.contents == before + Concat(jpegs) && f.position == |f.contents|
    ensures |sizes| == |jpegs| && forall k :: 0 <= k < |jpegs| ==> sizes[k] == |jpegs[k]|
  {
    sizes := [];
    for j := 0 to |jpegs|
      invariant f.contents == before + Concat(jpegs[..j]) && f.position == |f.contents|
      invariant |sizes| == j && forall k :: 0 <= k < j ==> sizes[k] == |jpegs[k]|
    {
      sizes := sizes + [|jpegs[j]|];
      OverwriteAppend(f.contents, jpegs[j]);
      f.Write(jpegs[j]);
      assert jpegs[..j + 1][..j] == jpegs[..j];
    }
    assert jpegs[..|jpegs|] == jpegs;
  }

  /**
   * Rewrites the zero index entries with the frame sizes, from the start of
   * the index; stops with `false` at the first size that does not fit.
   */
  method RewriteIndex(f: FileBuffer, headerText: string, jpegs: seq<seq<Byte>>, sizes: seq<nat>) returns (ok: bool)
    requires IsAscii(headerText)
    requires |sizes| == |jpegs| && forall k :: 0 <= k < |jpegs| ==> sizes[k] == |jpegs[k]|
    requires f.contents == PartialFile(headerText, jpegs, 0) && f.position == |Preamble(headerText)|
    modifies f
    ensures ok <==> SizesFit(jpegs)
    ensures ok ==> f.contents == Qjb1File(headerText, jpegs)
    ensures !ok ==> exists m :: 0 <= m < |jpegs| && |jpegs[m]| >= TWO_TO_32 && SizesFit(jpegs[..m])
                              && f.contents == PartialFile(headerText, jpegs, m)
  {
    var n := |jpegs|;
    var j := 0;
    while j < n
      invariant 0 <= j <= n && SizesFit(jpegs[..j])
      invariant f.contents == PartialFile(headerText, jpegs, j) && f.position == |Preamble(headerText)| + 4 * j
    {
      if sizes[j] >= TWO_TO_32 {
        return false;
      }
      RewriteStep(headerText, jpegs, j);
      f.Write(LE32(sizes[j]));
      j := j + 1;
    }
    assert jpegs[..n] == jpegs;
    return true;
  }

  /** Writing entry `j` over its zeros turns the file with `j` entries into the one with `j + 1`. */
  lemma RewriteStep(headerText: string, jpegs: seq<seq<Byte>>, j: nat)
    requires IsAscii(headerText) && j < |jpegs| && SizesFit(jpegs[..j]) && |jpegs[j]| < TWO_TO_32
    ensures SizesFit(jpegs[..j + 1])
    ensures Overwrite(PartialFile(headerText, jpegs, j), |Preamble(headerText)| + 4 * j, LE32(|jpegs[j]|))
         == PartialFile(headerText, jpegs, j + 1)
  {
    var n := |jpegs|;
    var a := Preamble(headerText) + Index(jpegs[..j]);
    var rest := Zeros(4 * (n - j - 1)) + Concat(jpegs);
    IndexGrows(jpegs, j);
    assert Zeros(4 * (n - j)) == Zeros(4) + Zeros(4 * (n - j - 1));
    assert PartialFile(headerText, jpegs, j) == a + Zeros(4) + rest;
    OverwriteBlock(a, Zeros(4), rest, LE32(|jpegs[j]|));
    assert PartialFile(headerText, jpegs, j + 1) == a + LE32(|jpegs[j]|) + rest;
  }

  /** The index of one more frame is the old index followed by that frame's size. */
  lemma IndexGrows(jpegs: seq<seq<Byte>>, j: nat)
    requires j < |jpegs| && SizesFit(jpegs[..j]) && |jpegs[j]| < TWO_TO_32
    ensures SizesFit(jpegs[..j + 1])
    ensures Index(jpegs[..j + 1]) == Index(jpegs[..j]) + LE32(|jpegs[j]|)
  {
    assert jpegs[..j + 1][..j] == jpegs[..j];
  }

  /** Index entry `j` of the finished file decodes to the size of frame `j`. */
  lemma {:induction false} IndexEntry(jpegs: seq<seq<Byte>>, j: nat)
    requires SizesFit(jpegs) && j < |jpegs|
    ensures Index(jpegs)[4 * j..4 * j + 4] == LE32(|jpegs[j]|)
    ensures DecodeLE32(Index(jpegs)[4 * j..4 * j + 4]) == |jpegs[j]|
  {
    var last := |jpegs| - 1;
    assert SizesFit(jpegs[..last]);
    assert Index(jpegs) == Index(jpegs[..last]) + LE32(|jpegs[last]|);
    if j < last {
      IndexEntry(jpegs[..last], j);
      assert Index(jpegs)[4 * j..4 * j + 4] == Index(jpegs[..last])[4 * j..4 * j + 4];
    }
    LE32RoundTrip(|jpegs[j]|);
  }

  /** Frame `j` of the concatenation starts after the sizes of the earlier frames. */
  lemma {:induction false} ConcatAt(blobs: seq<seq<Byte>>, j: nat)
    requires j < |blobs|
    ensures |Concat(blobs)| == SizeSum(blobs, |blobs|)
    ensures SizeSum(blobs, j) + |blobs[j]| <= |Concat(blobs)|
    ensures Concat(blobs)[SizeSum(blobs, j)..SizeSum(blobs, j) + |blobs[j]|] == blobs[j]
  {
    var last := |blobs| - 1;
    var init := blobs[..last];
    SizeSumPrefix(blobs, last);
    ConcatLength(init);
    if j < last {
      ConcatAt(init, j);
      assert init[..j] == blobs[..j];
      SizeSumAgree(init, blobs, j);
      SizeSumGrows(init, j + 1, last);
      assert init[j] == blobs[j];
      var a := SizeSum(blobs, j);
      assert Concat(blobs) == Concat(init) + blobs[last];
      assert Concat(blobs)[a..a + |blobs[j]|] == Concat(init)[a..a + |blobs[j]|];
    }
  }

  lemma {:induction false} ConcatLength(blobs: seq<seq<Byte>>)
    ensures |Concat(blobs)| == SizeSum(blobs, |blobs|)
  {
    if |blobs| > 0 {
      var last := |blobs| - 1;
      ConcatLength(blobs[..last]);
      SizeSumPrefix(blobs, last);
    }
  }

  /** The sizes of the first `j` blobs do not depend on the later ones. */
  lemma {:induction false} SizeSumPrefix(blobs: seq<seq<Byte>>, j: nat)
    requires j <= |blobs|
    ensures SizeSum(blobs[..j], j) == SizeSum(blobs, j)
  {
    SizeSumAgree(blobs[..j], blobs, j);
  }

  lemma {:induction false} SizeSumAgree(a: seq<seq<Byte>>, b: seq<seq<Byte>>, j: nat)
    requires j <= |a| && j <= |b| && a[..j] == b[..j]
    ensures SizeSum(a, j) == SizeSum(b, j)
  {
    if j > 0 {
      assert a[..j - 1] == a[..j][..j - 1];
      assert b[..j - 1] == b[..j][..j - 1];
      assert a[j - 1] == a[..j][j - 1];
      assert b[j - 1] == b[..j][j - 1];
      SizeSumAgree(a, b, j - 1);
    }
  }

  lemma {:induction false} SizeSumGrows(blobs: seq<seq<Byte>>, i: nat, j: nat)
    requires i <= j <= |blobs|
    ensures SizeSum(blobs, i) <= SizeSum(blobs, j)
    decreases j - i
  {
    if i < j {
      SizeSumGrows(blobs, i, j - 1);
    }
  }

  /** Where frame `j` starts in the finished file. */
  function FrameStart(headerText: string, jpegs: seq<seq<Byte>>, j: nat): nat
    requires j <= |jpegs|
  {
    |MAGIC| + |headerText| + 1 + 4 * |jpegs| + SizeSum(jpegs, j)
  }

  /** The finished file starts with the magic line. */
  lemma Qjb1StartsWithMagic(headerText: string, jpegs: seq<seq<Byte>>)
    requires IsAscii(headerText) && SizesFit(jpegs)
    ensures |MAGIC| <= |Qjb1File(headerText, jpegs)|
    ensures Qjb1File(headerText, jpegs)[..|MAGIC|] == Ascii(MAGIC)
  {
    var file := Qjb1File(headerText, jpegs);
    assert file == Ascii(MAGIC) + (Ascii(headerText) + Ascii("\n") + Index(jpegs) + Concat(jpegs));
  }

  /** Index entry `j` starts `4 j` bytes after the header line and holds the size of frame `j`. */
  lemma Qjb1IndexEntry(headerText: string, jpegs: seq<seq<Byte>>, j: nat)
    requires IsAscii(headerText) && SizesFit(jpegs) && j < |jpegs|
    ensures var byteNum := |MAGIC| + |headerText| + 1;
      && byteNum + 4 * j + 4 <= |Qjb1File(headerText, jpegs)|
      && DecodeLE32(Qjb1File(headerText, jpegs)[byteNum + 4 * j..byteNum + 4 * j + 4]) == |jpegs[j]|
  {
    var pre := Preamble(headerText);
    var index := Index(jpegs);
    IndexEntry(jpegs, j);
    var file := Qjb1File(headerText, jpegs);
    assert file == pre + index + Concat(jpegs);
    assert file[|pre| + 4 * j..|pre| + 4 * j + 4] == index[4 * j..4 * j + 4];
  }

  /** Frame `j` sits at `FrameStart`: after the index and the earlier frames. */
  lemma Qjb1FrameAt(headerText: string, jpegs: seq<seq<Byte>>, j: nat)
    requires IsAscii(headerText) && SizesFit(jpegs) && j < |jpegs|
    ensures var s := FrameStart(headerText, jpegs, j);
      && s + |jpegs[j]| <= |Qjb1File(headerText, jpegs)|
      && Qjb1File(headerText, jpegs)[s..s + |jpegs[j]|] == jpegs[j]
  {
    var pre := Preamble(headerText);
    var index := Index(jpegs);
    ConcatAt(jpegs, j);
    var file := Qjb1File(headerText, jpegs);
    assert file == (pre + index) + Concat(jpegs);
    var s := FrameStart(headerText, jpegs, j);
    assert s == |pre + index| + SizeSum(jpegs, j);
    assert file[s..s + |jpegs[j]|] == Concat(jpegs)[SizeSum(jpegs, j)..SizeSum(jpegs, j) + |jpegs[j]|];
  }

  /** The in-place rewrite touches only the index: every other byte is as it was in the placeholder file. */
  lemma RewriteOnlyIndex(headerText: string, jpegs: seq<seq<Byte>>, k: nat)
    requires IsAscii(headerText) && SizesFit(jpegs)
    requires k < |Qjb1File(headerText, jpegs)|
    requires !(|Preamble(headerText)| <= k < |Preamble(headerText)| + 4 * |jpegs|)
    ensures |PartialFile(headerText, jpegs, 0)| == |Qjb1File(headerText, jpegs)|
    ensures Qjb1File(headerText, jpegs)[k] == PartialFile(headerText, jpegs, 0)[k]
  {
    assert jpegs[..0] == [];
  }
}
