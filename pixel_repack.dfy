/** The pixel repack inside the desktop viewer's thumbnail rendering: the render engine hands
    back packed 3-byte B,G,R pixels and the UI bitmap wants 4-byte B,G,R,A pixels, so a loop
    copies each triple and appends an opaque alpha byte (ViewModels/PdfViewerViewModel.cs). */
module PixelRepack {
  import opened Common

  /** The alpha value written for every pixel: fully opaque. */
  const Opaque: byte := 255

  /** When the loop runs without an index out of range: only whole B,G,R triples, and no more
      pixels than a width x height bitmap holds. */
  predicate Fits(inputLength: nat, width: nat, height: nat)
  {
    inputLength % 3 == 0 && inputLength / 3 <= width * height
  }

  /** Reference definition: every B,G,R triple becomes B, G, R and an opaque alpha byte. */
  function AddAlpha(bgr: seq<byte>): (bgra: seq<byte>)
    requires |bgr| % 3 == 0
    ensures |bgra| == |bgr| / 3 * 4
    decreases |bgr|
  {
    if |bgr| == 0 then [] else [bgr[0], bgr[1], bgr[2], Opaque] + AddAlpha(bgr[3..])
  }

  /** Inverse of AddAlpha: keep the first three bytes of every four. */
  function DropAlpha(bgra: seq<byte>): (bgr: seq<byte>)
    requires |bgra| % 4 == 0
    ensures |bgr| == |bgra| / 4 * 3
    decreases |bgra|
  {
    if |bgra| == 0 then [] else bgra[..3] + DropAlpha(bgra[4..])
  }

  function Zeros(n: nat): (z: seq<byte>)
    ensures |z| == n && forall i :: 0 <= i < n ==> z[i] == 0
  {
    seq(n, _ => 0)
  }

  /** The whole BGRA buffer of a width x height bitmap: the repacked pixels, then the bytes the
      loop never reaches, left at the zero of a new byte array. */
  function ThumbnailBuffer(bgr: seq<byte>, width: nat, height: nat): (bgra: seq<byte>)
    requires Fits(|bgr|, width, height)
    ensures |bgra| == width * height * 4
  {
    AddAlpha(bgr) + Zeros(width * height * 4 - |bgr| / 3 * 4)
  }

  /** Output byte p of the repack, pointwise: alpha at every fourth byte, otherwise the
      colour byte of the same pixel and channel. */
  function RepackedByte(bgr: seq<byte>, p: nat): byte
    requires p / 4 < |bgr| / 3
  {
    if p % 4 == 3 then Opaque else bgr[p / 4 * 3 + p % 4]
  }

  lemma {:induction false} AddAlphaAt(bgr: seq<byte>, p: nat)
    requires |bgr| % 3 == 0 && p < |bgr| / 3 * 4
    ensures AddAlpha(bgr)[p] == RepackedByte(bgr, p)
    decreases |bgr|
  {
    if p >= 4 {
      var rest := bgr[3..];
      AddAlphaAt(rest, p - 4);
      assert (p - 4) / 4 * 3 + (p - 4) % 4 + 3 == p / 4 * 3 + p % 4;
      assert (p - 4) % 4 == p % 4;
    }
  }

  /** For every pixel k: output bytes 4k, 4k+1, 4k+2 are input bytes 3k, 3k+1, 3k+2 in the same
      B, G, R order and output byte 4k+3 is opaque; every output byte j past the last pixel is zero. */
  lemma ThumbnailBufferPixel(bgr: seq<byte>, width: nat, height: nat, k: nat, j: nat)
    requires Fits(|bgr|, width, height)
    ensures k < |bgr| / 3 ==>
      && ThumbnailBuffer(bgr, width, height)[4 * k] == bgr[3 * k]
      && ThumbnailBuffer(bgr, width, height)[4 * k + 1] == bgr[3 * k + 1]
      && ThumbnailBuffer(bgr, width, height)[4 * k + 2] == bgr[3 * k + 2]
      && ThumbnailBuffer(bgr, width, height)[4 * k + 3] == Opaque
    ensures |bgr| / 3 * 4 <= j < width * height * 4 ==> ThumbnailBuffer(bgr, width, height)[j] == 0
  {
    var buffer := ThumbnailBuffer(bgr, width, height);
    var prefix := AddAlpha(bgr);
    assert buffer == prefix + Zeros(width * height * 4 - |prefix|);
    if k < |bgr| / 3 {
      assert 4 * k + 3 < |prefix|;
      AddAlphaAt(bgr, 4 * k);
      AddAlphaAt(bgr, 4 * k + 1);
      AddAlphaAt(bgr, 4 * k + 2);
      AddAlphaAt(bgr, 4 * k + 3);
      assert (4 * k + 1) / 4 == k && (4 * k + 2) / 4 == k && (4 * k + 3) / 4 == k && (4 * k) / 4 == k;
      assert (4 * k + 1) % 4 == 1 && (4 * k + 2) % 4 == 2 && (4 * k + 3) % 4 == 3 && (4 * k) % 4 == 0;
    }
  }

  /** Dropping the alpha bytes of a repacked buffer gives back the rendered pixels. */
  lemma {:induction false} DropAlphaAddAlpha(bgr: seq<byte>)
    requires |bgr| % 3 == 0
    ensures DropAlpha(AddAlpha(bgr)) == bgr
    decreases |bgr|
  {
    if |bgr| > 0 {
      var out := AddAlpha(bgr);
      assert out == [bgr[0], bgr[1], bgr[2], Opaque] + AddAlpha(bgr[3..]);
      assert out[..3] == bgr[..3];
      assert out[4..] == AddAlpha(bgr[3..]);
      DropAlphaAddAlpha(bgr[3..]);
      assert bgr == bgr[..3] + bgr[3..];
    }
  }

  /** Room in a buffer of `bufferLength` bytes for the repack: only whole triples, and four output
      bytes for each of them. */
  predicate Room(inputLength: nat, bufferLength: nat)
  {
    inputLength % 3 == 0 && inputLength / 3 * 4 <= bufferLength
  }

  /** A width x height bitmap has room for the repack exactly when the input fits it. */
  lemma FitsRoom(inputLength: nat, width: nat, height: nat)
    ensures Fits(inputLength, width, height) <==> Room(inputLength, width * height * 4)
  {
  }

  /** The loop leaves early exactly on input without room: a partial triple at the end, or more
      triples than the buffer holds. */
  lemma LoopStops(n: nat, bufferLength: nat, k: nat)
    requires 3 * k < n && (3 * k + 2 >= n || 4 * k + 3 >= bufferLength)
    ensures !Room(n, bufferLength)
  {
    if 3 * k + 2 >= n {
      assert n % 3 != 0;
    } else {
      assert n / 3 >= k + 1;
    }
  }

  /** A loop that consumed every triple within the buffer had room. */
  lemma LoopEnds(n: nat, bufferLength: nat, k: nat)
    requires n == 3 * k && 4 * k <= bufferLength
    ensures Room(n, bufferLength) && n / 3 * 4 == 4 * k
  {
  }

  /** Repacking one more triple appends its four output bytes. */
  lemma {:induction false} AddAlphaAppend(bgr: seq<byte>, triple: seq<byte>)
    requires |bgr| % 3 == 0 && |triple| == 3
    ensures AddAlpha(bgr + triple) == AddAlpha(bgr) + [triple[0], triple[1], triple[2], Opaque]
    decreases |bgr|
  {
    if |bgr| == 0 {
      assert bgr + triple == triple;
      assert triple[3..] == [];
    } else {
      assert (bgr + triple)[3..] == bgr[3..] + triple;
      AddAlphaAppend(bgr[3..], triple);
    }
  }

  /** The repack of the input up to triple i + 3 extends the repack up to i by that triple. */
  lemma RepackPrefix(bgr: seq<byte>, i: nat)
    requires i % 3 == 0 && i + 3 <= |bgr|
    ensures AddAlpha(bgr[..i + 3]) == AddAlpha(bgr[..i]) + [bgr[i], bgr[i + 1], bgr[i + 2], Opaque]
  {
    assert bgr[..i + 3] == bgr[..i] + bgr[i..i + 3];
    AddAlphaAppend(bgr[..i], bgr[i..i + 3]);
  }

  /** A buffer whose first j bytes are `prefix` and whose other bytes are zero. */
  lemma FilledBuffer(prefix: seq<byte>, buffer: seq<byte>, j: nat)
    requires j <= |buffer| && buffer[..j] == prefix
    requires forall p :: j <= p < |buffer| ==> buffer[p] == 0
    ensures buffer == prefix + Zeros(|buffer| - j)
  {
    assert buffer[j..] == Zeros(|buffer| - j);
    assert buffer == buffer[..j] + buffer[j..];
  }

  /** The four writes of one loop step: bytes j .. j+3 become B, G, R and the opaque alpha. */
  method WritePixel(buffer: array<byte>, j: nat, b: byte, g: byte, r: byte)
    requires j + 4 <= buffer.Length
    modifies buffer
    ensures buffer[..j] == old(buffer[..j])
    ensures buffer[j..j + 4] == [b, g, r, Opaque]
    ensures forall p :: j + 4 <= p < buffer.Length ==> buffer[p] == old(buffer[p])
  {
    buffer[j] := b;
    buffer[j + 1] := g;
    buffer[j + 2] := r;
    buffer[j + 3] := Opaque;
  }

  /** The loop of CreateThumbnail over a zeroed buffer: two indices stepping by 3 and 4. It throws
      IndexOutOfRangeException (false) exactly when the buffer has no room for the input;
      otherwise the buffer holds the repacked pixels followed by its untouched zeros. */
  method CopyPixels(pixelData: seq<byte>, buffer: array<byte>) returns (ok: bool)
    requires forall p :: 0 <= p < buffer.Length ==> buffer[p] == 0
    modifies buffer
    ensures ok <==> Room(|pixelData|, buffer.Length)
    ensures ok ==> buffer[..] == AddAlpha(pixelData) + Zeros(buffer.Length - |pixelData| / 3 * 4)
  {
    var n := |pixelData|;
    var i, j := 0, 0;
    ghost var k := 0;
    while i < n
      invariant i == 3 * k && j == 4 * k
      invariant i <= n && j <= buffer.Length
      invariant buffer[..j] == AddAlpha(pixelData[..i])
      invariant forall p :: j <= p < buffer.Length ==> buffer[p] == 0
    {
      if i + 2 >= n || j + 3 >= buffer.Length {
        // the read of pixelData[i + 1] or [i + 2], or a write at bgraData[j .. j + 3], is out of range
        LoopStops(n, buffer.Length, k);
        return false;
      }
      WritePixel(buffer, j, pixelData[i], pixelData[i + 1], pixelData[i + 2]);
      assert buffer[..j + 4] == buffer[..j] + buffer[j..j + 4];
      RepackPrefix(pixelData, i);
      i, j, k := i + 3, j + 4, k + 1;
    }
    LoopEnds(n, buffer.Length, k);
    assert pixelData[..i] == pixelData;
    FilledBuffer(AddAlpha(pixelData), buffer[..], j);
    ok := true;
  }

  /** CreateThumbnail's repack: a new zeroed width*height*4 byte array filled by CopyPixels. The
      outcome of the thrown exception is None (the partly filled array is then unreachable). */
  method RepackBgrToBgra(pixelData: seq<byte>, width: nat, height: nat) returns (bgraData: Option<array<byte>>)
    ensures bgraData.None? <==> !Fits(|pixelData|, width, height)
    ensures bgraData.Some? ==> bgraData.value.Length == width * height * 4
    ensures bgraData.Some? ==> bgraData.value[..] == ThumbnailBuffer(pixelData, width, height)
  {
    var buffer := new byte[width * height * 4](_ => 0);
    var ok := CopyPixels(pixelData, buffer);
    FitsRoom(|pixelData|, width, height);
    if !ok {
      return None;
    }
    bgraData := Some(buffer);
  }
}
