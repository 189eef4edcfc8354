/** Dimensions in PNG, GIF and WebP headers, and the limits enforced on every format. */
module ImageHeaders {
  import opened Wrappers
  import opened Bytes
  import opened JpegScanner

  const PNG_SIGNATURE: seq<Byte> := [0x89, 0x50, 0x4E, 0x47, 0x0D, 0x0A, 0x1A, 0x0A]
  const IHDR: seq<Byte> := [0x49, 0x48, 0x44, 0x52]
  const GIF87A: seq<Byte> := [0x47, 0x49, 0x46, 0x38, 0x37, 0x61]
  const GIF89A: seq<Byte> := [0x47, 0x49, 0x46, 0x38, 0x39, 0x61]
  const RIFF: seq<Byte> := [0x52, 0x49, 0x46, 0x46]
  const WEBP: seq<Byte> := [0x57, 0x45, 0x42, 0x50]
  const VP8X: seq<Byte> := [0x56, 0x50, 0x38, 0x58]
  const VP8_LOSSY: seq<Byte> := [0x56, 0x50, 0x38, 0x20]
  const VP8_LOSSLESS: seq<Byte> := [0x56, 0x50, 0x38, 0x4C]
  const KEYFRAME: seq<Byte> := [0x9D, 0x01, 0x2A]

  function PngDimensions(data: seq<Byte>): Option<Dimensions> {
    if |data| < 29 || data[..8] != PNG_SIGNATURE || data[8..12] != BigBytes(13, 4) || data[12..16] != IHDR then None
    else Some((Big(data[16..20]), Big(data[20..24])))
  }

  function GifDimensions(data: seq<Byte>): Option<Dimensions> {
    if |data| < 10 || (data[..6] != GIF87A && data[..6] != GIF89A) then None
    else Some((Little(data[6..8]), Little(data[8..10])))
  }

  function WebpDimensions(data: seq<Byte>): Option<Dimensions> {
    if |data| < 20 || data[..4] != RIFF || data[8..12] != WEBP then None
    else
      var containerEnd := Little(data[4..8]) + 8;
      if containerEnd < 20 || containerEnd > |data| then None
      else
        var chunk, size := data[12..16], Little(data[16..20]);
        if 20 + size > containerEnd then None
        else if chunk == VP8X then
          (if size < 10 then None else Some((1 + Little(data[24..27]), 1 + Little(data[27..30]))))
        else if chunk == VP8_LOSSY then
          (if size < 10 || data[23..26] != KEYFRAME then None
           else Some((Little(data[26..28]) % 0x4000, Little(data[28..30]) % 0x4000)))
        else if chunk == VP8_LOSSLESS then
          (if size < 5 || data[20] != 0x2F then None
           else
             var bits := Little(data[21..25]);
             Some((bits % 0x4000 + 1, bits / 0x4000 % 0x4000 + 1)))
        else None
  }

  // ----- PNG and GIF -----

  function PngBytes(width: nat, height: nat, rest: seq<Byte>): seq<Byte> {
    PNG_SIGNATURE + BigBytes(13, 4) + IHDR + BigBytes(width, 4) + BigBytes(height, 4) + rest
  }

  lemma PngFound(width: nat, height: nat, rest: seq<Byte>)
    requires width < 0x1_0000_0000 && height < 0x1_0000_0000 && |rest| >= 5
    ensures PngDimensions(PngBytes(width, height, rest)) == Some((width, height))
  {
    var data := PngBytes(width, height, rest);
    hide Big, BigBytes;
    assert data[..8] == PNG_SIGNATURE && data[8..12] == BigBytes(13, 4) && data[12..16] == IHDR;
    assert data[16..20] == BigBytes(width, 4) && data[20..24] == BigBytes(height, 4);
    assert Power256(4) == 0x1_0000_0000;
    BigOfBytes(width, 4);
    BigOfBytes(height, 4);
  }

  /** Dimensions are found in PNG data if and only if it is the signature, the head of an IHDR chunk
      with those dimensions, and at least the rest of that chunk. */
  lemma PngFoundExactly(data: seq<Byte>, width: nat, height: nat)
    ensures PngDimensions(data) == Some((width, height))
            <==> width < 0x1_0000_0000 && height < 0x1_0000_0000
                 && exists rest :: |rest| >= 5 && data == PngBytes(width, height, rest)
  {
    assert Power256(4) == 0x1_0000_0000;
    hide Big, BigBytes;
    if PngDimensions(data) == Some((width, height)) {
      BytesOfBig(data[16..20]);
      BytesOfBig(data[20..24]);
      assert data == data[..8] + data[8..12] + data[12..16] + data[16..20] + data[20..24] + data[24..];
      assert data == PngBytes(width, height, data[24..]);
    }
    forall rest | width < 0x1_0000_0000 && height < 0x1_0000_0000 && |rest| >= 5 && data == PngBytes(width, height, rest)
      ensures PngDimensions(data) == Some((width, height))
    {
      PngFound(width, height, rest);
    }
  }

  function GifBytes(signature: seq<Byte>, width: nat, height: nat, rest: seq<Byte>): seq<Byte> {
    signature + LittleBytes(width, 2) + LittleBytes(height, 2) + rest
  }

  lemma GifFound(width: nat, height: nat, signature: seq<Byte>, rest: seq<Byte>)
    requires width < 0x1_0000 && height < 0x1_0000 && signature in {GIF87A, GIF89A}
    ensures GifDimensions(GifBytes(signature, width, height, rest)) == Some((width, height))
  {
    var data := GifBytes(signature, width, height, rest);
    hide Little, LittleBytes;
    assert data[..6] == signature;
    assert data[6..8] == LittleBytes(width, 2) && data[8..10] == LittleBytes(height, 2);
    assert Power256(2) == 0x1_0000;
    LittleOfBytes(width, 2);
    LittleOfBytes(height, 2);
  }

  /** Dimensions are found in GIF data if and only if it starts with either signature and a screen
      descriptor with those dimensions. */
  lemma GifFoundExactly(data: seq<Byte>, width: nat, height: nat)
    ensures GifDimensions(data) == Some((width, height))
            <==> width < 0x1_0000 && height < 0x1_0000
                 && exists signature, rest :: signature in {GIF87A, GIF89A} && data == GifBytes(signature, width, height, rest)
  {
    assert Power256(2) == 0x1_0000;
    hide Little, LittleBytes;
    if GifDimensions(data) == Some((width, height)) {
      BytesOfLittle(data[6..8]);
      BytesOfLittle(data[8..10]);
      assert data == data[..6] + data[6..8] + data[8..10] + data[10..];
      assert data == GifBytes(data[..6], width, height, data[10..]);
    }
    forall signature, rest | width < 0x1_0000 && height < 0x1_0000 && signature in {GIF87A, GIF89A} && data == GifBytes(signature, width, height, rest)
      ensures GifDimensions(data) == Some((width, height))
    {
      GifFound(width, height, signature, rest);
    }
  }

  // ----- WebP -----

  /** The first chunk of a WebP file. The lossy form stores 14 bits a dimension below two scale bits;
      the lossless one packs both dimensions less one below four bits of alpha use and version. */
  datatype WebpImage =
    | Extended(width: nat, height: nat, flags: seq<Byte>, rest: seq<Byte>)
    | Lossy(width: nat, height: nat, xScale: nat, yScale: nat, tag: seq<Byte>, rest: seq<Byte>)
    | Lossless(width: nat, height: nat, bits: nat, rest: seq<Byte>)

  predicate ValidImage(image: WebpImage) {
    match image
    case Extended(width, height, flags, _) => 1 <= width <= 0x100_0000 && 1 <= height <= 0x100_0000 && |flags| == 4
    case Lossy(width, height, xScale, yScale, tag, _) =>
      width < 0x4000 && height < 0x4000 && xScale < 4 && yScale < 4 && |tag| == 3
    case Lossless(width, height, bits, _) => 1 <= width <= 0x4000 && 1 <= height <= 0x4000 && bits < 16
  }

  function Chunk(image: WebpImage): (chunk: seq<Byte>)
    ensures |chunk| == 4
  {
    match image
    case Extended(_, _, _, _) => VP8X
    case Lossy(_, _, _, _, _, _) => VP8_LOSSY
    case Lossless(_, _, _, _) => VP8_LOSSLESS
  }

  function Packed(width: nat, height: nat, bits: nat): nat
    requires width >= 1 && height >= 1
  {
    (width - 1) + 0x4000 * (height - 1) + 0x1000_0000 * bits
  }

  function Payload(image: WebpImage): seq<Byte>
    requires ValidImage(image)
  {
    match image
    case Extended(width, height, flags, rest) => flags + LittleBytes(width - 1, 3) + LittleBytes(height - 1, 3) + rest
    case Lossy(width, height, xScale, yScale, tag, rest) =>
      tag + KEYFRAME + LittleBytes(width + xScale * 0x4000, 2) + LittleBytes(height + yScale * 0x4000, 2) + rest
    case Lossless(width, height, bits, rest) => [0x2F] + LittleBytes(Packed(width, height, bits), 4) + rest
  }

  /** A RIFF container whose first chunk has the payload; `more` are the chunks after it, `trailing`
      what follows the container. */
  function WebpBytes(chunk: seq<Byte>, payload: seq<Byte>, more: seq<Byte>, trailing: seq<Byte>): seq<Byte> {
    RIFF + LittleBytes(12 + |payload| + |more|, 4) + WEBP + chunk + LittleBytes(|payload|, 4) + payload + more + trailing
  }

  predicate InContainer(image: WebpImage, more: seq<Byte>) {
    ValidImage(image) && 12 + |Payload(image)| + |more| < 0x1_0000_0000
  }

  lemma WebpParts(chunk: seq<Byte>, payload: seq<Byte>, more: seq<Byte>, trailing: seq<Byte>)
    requires |chunk| == 4 && 12 + |payload| + |more| < 0x1_0000_0000
    ensures var data := WebpBytes(chunk, payload, more, trailing);
            |data| >= 20 + |payload| + |more| && data[..4] == RIFF && data[8..12] == WEBP && data[12..16] == chunk
            && Little(data[4..8]) == 12 + |payload| + |more| && Little(data[16..20]) == |payload|
            && data[20..20 + |payload|] == payload
  {
    var data := WebpBytes(chunk, payload, more, trailing);
    hide Little, LittleBytes;
    var size, length := LittleBytes(12 + |payload| + |more|, 4), LittleBytes(|payload|, 4);
    assert data == RIFF + size + WEBP + chunk + length + payload + more + trailing;
    assert data[4..8] == size && data[16..20] == length;
    assert data[12..16] == chunk && data[8..12] == WEBP;
    assert Power256(4) == 0x1_0000_0000;
    LittleOfBytes(12 + |payload| + |more|, 4);
    LittleOfBytes(|payload|, 4);
  }

  lemma WebpExtendedFound(image: WebpImage, more: seq<Byte>, trailing: seq<Byte>)
    requires image.Extended? && InContainer(image, more)
    ensures WebpDimensions(WebpBytes(Chunk(image), Payload(image), more, trailing)) == Some((image.width, image.height))
  {
    hide Little, LittleBytes;
    var payload := Payload(image);
    var data := WebpBytes(VP8X, payload, more, trailing);
    WebpParts(VP8X, payload, more, trailing);
    hide WebpBytes;
    assert data[24..27] == data[20..20 + |payload|][4..7] == LittleBytes(image.width - 1, 3);
    assert data[27..30] == data[20..20 + |payload|][7..10] == LittleBytes(image.height - 1, 3);
    assert Power256(3) == 0x100_0000;
    LittleOfBytes(image.width - 1, 3);
    LittleOfBytes(image.height - 1, 3);
  }

  lemma WebpLossyFound(image: WebpImage, more: seq<Byte>, trailing: seq<Byte>)
    requires image.Lossy? && InContainer(image, more)
    ensures WebpDimensions(WebpBytes(Chunk(image), Payload(image), more, trailing)) == Some((image.width, image.height))
  {
    hide Little, LittleBytes;
    var x, y := image.width + image.xScale * 0x4000, image.height + image.yScale * 0x4000;
    var payload := Payload(image);
    var data := WebpBytes(VP8_LOSSY, payload, more, trailing);
    WebpParts(VP8_LOSSY, payload, more, trailing);
    hide WebpBytes;
    assert data[23..26] == data[20..20 + |payload|][3..6] == KEYFRAME;
    assert data[26..28] == data[20..20 + |payload|][6..8] == LittleBytes(x, 2);
    assert data[28..30] == data[20..20 + |payload|][8..10] == LittleBytes(y, 2);
    assert Power256(2) == 0x1_0000;
    LittleOfBytes(x, 2);
    LittleOfBytes(y, 2);
  }

  lemma WebpLosslessFound(image: WebpImage, more: seq<Byte>, trailing: seq<Byte>)
    requires image.Lossless? && InContainer(image, more)
    ensures WebpDimensions(WebpBytes(Chunk(image), Payload(image), more, trailing)) == Some((image.width, image.height))
  {
    hide Little, LittleBytes;
    var bits := Packed(image.width, image.height, image.bits);
    var payload := Payload(image);
    var data := WebpBytes(VP8_LOSSLESS, payload, more, trailing);
    WebpParts(VP8_LOSSLESS, payload, more, trailing);
    hide WebpBytes;
    assert data[20] == data[20..20 + |payload|][0];
    assert data[21..25] == data[20..20 + |payload|][1..5] == LittleBytes(bits, 4);
    assert Power256(4) == 0x1_0000_0000;
    LittleOfBytes(bits, 4);
    assert bits / 0x4000 == image.height - 1 + 0x4000 * image.bits;
  }

  lemma Within(data: seq<Byte>, at: nat, n: nat, i: nat, j: nat)
    requires at + n <= |data| && i <= j <= n
    ensures data[at..at + n][i..j] == data[at + i..at + j]
  {
    var a, b := data[at..at + n][i..j], data[at + i..at + j];
    assert |a| == |b| && forall k :: 0 <= k < |a| ==> a[k] == b[k];
    assert a == b;
  }

  lemma HeadOf(data: seq<Byte>)
    requires |data| >= 20
    ensures data[..20] == data[..4] + data[4..8] + data[8..12] + data[12..16] + data[16..20]
  {
  }

  lemma WebpSplits(head: seq<Byte>, chunk: seq<Byte>, payload: seq<Byte>, more: seq<Byte>, trailing: seq<Byte>)
    requires head == RIFF + LittleBytes(12 + |payload| + |more|, 4) + WEBP + chunk + LittleBytes(|payload|, 4)
    ensures WebpBytes(chunk, payload, more, trailing) == head + (payload + more + trailing)
  {
    hide LittleBytes;
  }

  /** Any data with a well-formed container is such a container. */
  lemma WebpContainer(data: seq<Byte>) returns (payload: seq<Byte>, more: seq<Byte>, trailing: seq<Byte>)
    requires WebpDimensions(data).Some?
    ensures data == WebpBytes(data[12..16], payload, more, trailing) && payload == data[20..20 + |payload|]
    ensures |payload| == Little(data[16..20]) && 12 + |payload| + |more| < 0x1_0000_0000
  {
    var containerEnd, size := Little(data[4..8]) + 8, Little(data[16..20]);
    hide Little, LittleBytes;
    payload, more, trailing := data[20..20 + size], data[20 + size..containerEnd], data[containerEnd..];
    BytesOfLittle(data[4..8]);
    BytesOfLittle(data[16..20]);
    assert Power256(4) == 0x1_0000_0000;
    assert 12 + |payload| + |more| == Little(data[4..8]);
    HeadOf(data);
    WebpSplits(data[..20], data[12..16], payload, more, trailing);
    hide WebpBytes, WebpDimensions;
    assert data[20..] == payload + more + trailing;
    assert data == data[..20] + data[20..];
  }

  /** The payload of the first chunk of data in which dimensions are found. */
  predicate IsPayload(data: seq<Byte>, payload: seq<Byte>) {
    |data| >= 20 && |payload| == Little(data[16..20]) && 20 + |payload| <= |data| && payload == data[20..20 + |payload|]
  }

  lemma ExtendedOf(data: seq<Byte>, payload: seq<Byte>) returns (image: WebpImage)
    requires IsPayload(data, payload) && WebpDimensions(data).Some? && data[12..16] == VP8X
    ensures ValidImage(image) && Chunk(image) == VP8X && Payload(image) == payload
    ensures WebpDimensions(data) == Some((image.width, image.height))
  {
    hide Little, LittleBytes;
    assert Power256(3) == 0x100_0000;
    Within(data, 20, |payload|, 4, 7);
    Within(data, 20, |payload|, 7, 10);
    BytesOfLittle(payload[4..7]);
    BytesOfLittle(payload[7..10]);
    image := Extended(1 + Little(payload[4..7]), 1 + Little(payload[7..10]), payload[..4], payload[10..]);
    assert payload == payload[..4] + payload[4..7] + payload[7..10] + payload[10..];
  }

  lemma LossyOf(data: seq<Byte>, payload: seq<Byte>) returns (image: WebpImage)
    requires IsPayload(data, payload) && WebpDimensions(data).Some? && data[12..16] == VP8_LOSSY
    ensures ValidImage(image) && Chunk(image) == VP8_LOSSY && Payload(image) == payload
    ensures WebpDimensions(data) == Some((image.width, image.height))
  {
    hide Little, LittleBytes;
    assert Power256(2) == 0x1_0000;
    Within(data, 20, |payload|, 3, 6);
    Within(data, 20, |payload|, 6, 8);
    Within(data, 20, |payload|, 8, 10);
    var x, y := Little(payload[6..8]), Little(payload[8..10]);
    BytesOfLittle(payload[6..8]);
    BytesOfLittle(payload[8..10]);
    image := Lossy(x % 0x4000, y % 0x4000, x / 0x4000, y / 0x4000, payload[..3], payload[10..]);
    assert payload == payload[..3] + payload[3..6] + payload[6..8] + payload[8..10] + payload[10..];
  }

  lemma LosslessOf(data: seq<Byte>, payload: seq<Byte>) returns (image: WebpImage)
    requires IsPayload(data, payload) && WebpDimensions(data).Some? && data[12..16] == VP8_LOSSLESS
    ensures ValidImage(image) && Chunk(image) == VP8_LOSSLESS && Payload(image) == payload
    ensures WebpDimensions(data) == Some((image.width, image.height))
  {
    hide Little, LittleBytes;
    assert Power256(4) == 0x1_0000_0000;
    assert data[20] == payload[0];
    Within(data, 20, |payload|, 1, 5);
    var bits := Little(payload[1..5]);
    BytesOfLittle(payload[1..5]);
    Unpacked(bits);
    image := Lossless(bits % 0x4000 + 1, bits / 0x4000 % 0x4000 + 1, bits / 0x1000_0000, payload[5..]);
    hide Packed;
    assert payload == [payload[0]] + payload[1..5] + payload[5..];
  }

  lemma KnownChunk(data: seq<Byte>)
    requires WebpDimensions(data).Some?
    ensures data[12..16] == VP8X || data[12..16] == VP8_LOSSY || data[12..16] == VP8_LOSSLESS
  {
    hide Little;
  }

  /** The image of a payload in which dimensions are found. */
  lemma WebpImageOf(data: seq<Byte>, payload: seq<Byte>) returns (image: WebpImage)
    requires WebpDimensions(data).Some? && IsPayload(data, payload)
    ensures ValidImage(image) && Chunk(image) == data[12..16] && Payload(image) == payload
    ensures WebpDimensions(data) == Some((image.width, image.height))
  {
    KnownChunk(data);
    hide WebpDimensions, Payload, Chunk, ValidImage, IsPayload;
    if data[12..16] == VP8X {
      image := ExtendedOf(data, payload);
    } else if data[12..16] == VP8_LOSSY {
      image := LossyOf(data, payload);
    } else {
      image := LosslessOf(data, payload);
    }
  }

  lemma Unpacked(bits: nat)
    requires bits < 0x1_0000_0000
    ensures Packed(bits % 0x4000 + 1, bits / 0x4000 % 0x4000 + 1, bits / 0x1000_0000) == bits && bits / 0x1000_0000 < 16
  {
    var high := bits / 0x4000;
    assert high / 0x4000 == bits / 0x1000_0000;
  }

  /** Dimensions are found in WebP data if and only if it is a RIFF container whose first chunk is an
      image of one of the three forms with those dimensions, whatever follows in and after it. */
  lemma WebpFoundExactly(data: seq<Byte>, width: nat, height: nat)
    ensures WebpDimensions(data) == Some((width, height))
            <==> exists image, more, trailing ::
                   InContainer(image, more) && data == WebpBytes(Chunk(image), Payload(image), more, trailing)
                   && image.width == width && image.height == height
  {
    if WebpDimensions(data) == Some((width, height)) {
      var payload, more, trailing := WebpContainer(data);
      assert |WebpBytes(data[12..16], payload, more, trailing)| == 20 + |payload| + |more| + |trailing|;
      var image := WebpImageOf(data, payload);
      assert InContainer(image, more) && data == WebpBytes(Chunk(image), Payload(image), more, trailing);
    }
    hide WebpDimensions, WebpBytes, Payload;
    forall image, more, trailing | InContainer(image, more) && data == WebpBytes(Chunk(image), Payload(image), more, trailing)
      ensures WebpDimensions(data) == Some((image.width, image.height))
    {
      match image
      case Extended(_, _, _, _) => WebpExtendedFound(image, more, trailing);
      case Lossy(_, _, _, _, _, _) => WebpLossyFound(image, more, trailing);
      case Lossless(_, _, _, _) => WebpLosslessFound(image, more, trailing);
    }
  }

  // ----- Limits -----

  datatype ImageError = Undetermined | NotPositive | TooLong | TooManyPixels

  function ImageDimensions(data: seq<Byte>, mime: string): Option<Dimensions> {
    if mime == "image/png" then PngDimensions(data)
    else if mime == "image/jpeg" then JpegDimensions(data)
    else if mime == "image/gif" then GifDimensions(data)
    else if mime == "image/webp" then WebpDimensions(data)
    else None
  }

  predicate IsValidated(mime: string) {
    mime in {"image/png", "image/jpeg", "image/gif", "image/webp"}
  }

  function EnforceImageDimensions(data: seq<Byte>, mime: string, maxPixels: int, maxDimension: int)
    : Result<Option<Dimensions>, ImageError>
  {
    if !IsValidated(mime) then Ok(None)
    else
      match ImageDimensions(data, mime)
      case None => Err(Undetermined)
      case Some((width, height)) =>
        if width < 1 || height < 1 then Err(NotPositive)
        else if width > maxDimension || height > maxDimension then Err(TooLong)
        else if width * height > maxPixels then Err(TooManyPixels)
        else Ok(Some((width, height)))
  }

  /** A JPEG file is let through exactly when its first frame header is within the limits, whatever
      the pieces before it and the bytes after it are. */
  lemma JpegAcceptedExactly(pieces: seq<Piece>, f: Frame, trailing: seq<Byte>, maxPixels: int, maxDimension: int)
    requires ValidFile(pieces, f)
    ensures EnforceImageDimensions(FileBytes(pieces, f, trailing), "image/jpeg", maxPixels, maxDimension).Ok?
            <==> 1 <= f.width <= maxDimension && 1 <= f.height <= maxDimension && f.width * f.height <= maxPixels
  {
    WrittenDimensionsAreFound(pieces, f, trailing);
  }

  /** The data is of the type and shows these dimensions. */
  ghost predicate Shows(data: seq<Byte>, mime: string, width: nat, height: nat) {
    if mime == "image/png" then
      width < 0x1_0000_0000 && height < 0x1_0000_0000 && exists rest :: |rest| >= 5 && data == PngBytes(width, height, rest)
    else if mime == "image/jpeg" then
      exists pieces, f, trailing :: ValidFile(pieces, f) && f.width == width && f.height == height && data == FileBytes(pieces, f, trailing)
    else if mime == "image/gif" then
      width < 0x1_0000 && height < 0x1_0000
      && exists signature, rest :: signature in {GIF87A, GIF89A} && data == GifBytes(signature, width, height, rest)
    else
      mime == "image/webp"
      && exists image, more, trailing ::
           InContainer(image, more) && data == WebpBytes(Chunk(image), Payload(image), more, trailing)
           && image.width == width && image.height == height
  }

  lemma ShownExactly(data: seq<Byte>, mime: string, width: nat, height: nat)
    ensures ImageDimensions(data, mime) == Some((width, height)) <==> Shows(data, mime, width, height)
  {
    hide PngDimensions, GifDimensions, WebpDimensions, JpegDimensions, PngBytes, GifBytes, WebpBytes, FileBytes, ValidFile,
         InContainer, Chunk, Payload;
    if mime == "image/png" {
      PngFoundExactly(data, width, height);
    } else if mime == "image/jpeg" {
      FoundExactly(data, width, height);
    } else if mime == "image/gif" {
      GifFoundExactly(data, width, height);
    } else if mime == "image/webp" {
      WebpFoundExactly(data, width, height);
    }
  }

  /** Any data is let through exactly when its type has no dimension parser, or it shows dimensions
      within the limits; those are what is answered. It is undetermined exactly when it shows none. */
  lemma AcceptedExactly(data: seq<Byte>, mime: string, maxPixels: int, maxDimension: int)
    ensures var r := EnforceImageDimensions(data, mime, maxPixels, maxDimension);
            && (r == Ok(None) <==> !IsValidated(mime))
            && (r == Err(Undetermined) <==> IsValidated(mime) && forall width, height :: !Shows(data, mime, width, height))
            && forall width: nat, height: nat ::
                 r == Ok(Some((width, height)))
                 <==> Shows(data, mime, width, height)
                      && 1 <= width <= maxDimension && 1 <= height <= maxDimension && width * height <= maxPixels
    ensures forall width: nat, height: nat :: Shows(data, mime, width, height) ==>
              var r := EnforceImageDimensions(data, mime, maxPixels, maxDimension);
              (r == Err(NotPositive) <==> width == 0 || height == 0)
              && (r == Err(TooLong) <==> width != 0 && height != 0 && (width > maxDimension || height > maxDimension))
              && (r == Err(TooManyPixels) <==>
                    width != 0 && height != 0 && width <= maxDimension && height <= maxDimension && width * height > maxPixels)
  {
    hide Shows, ImageDimensions;
    forall width: nat, height: nat
      ensures ImageDimensions(data, mime) == Some((width, height)) <==> Shows(data, mime, width, height)
    {
      ShownExactly(data, mime, width, height);
    }
    if !IsValidated(mime) { assert ImageDimensions(data, mime) == None by { NotValidated(data, mime); } }
    if ImageDimensions(data, mime).Some? {
      var (w, h) := ImageDimensions(data, mime).value;
      assert Shows(data, mime, w, h);
    }
  }

  lemma NotValidated(data: seq<Byte>, mime: string)
    requires !IsValidated(mime)
    ensures ImageDimensions(data, mime) == None
  {}
}
