/** Finding the frame header of a JPEG file by walking its marker segments
    (ITU-T T.81, sections B.1.1.2, B.1.1.4 and B.2.2). */
module JpegScanner {
  import opened Wrappers
  import opened Bytes

  type Dimensions = (nat, nat)

  const FF: Byte := 0xFF
  const SOI: Byte := 0xD8
  const SOS: Byte := 0xDA

  predicate IsStandalone(marker: Byte) {
    marker == 0x01 || marker == 0xD8 || marker == 0xD9 || 0xD0 <= marker <= 0xD7
  }

  predicate IsFrame(marker: Byte) {
    0xC0 <= marker <= 0xCF && marker != 0xC4 && marker != 0xC8 && marker != 0xCC
  }

  /** The markers without a segment (T.81, table B.1: TEM, RST0 to RST7, SOI, EOI), and those of frame
      headers (SOF0 to SOF15 without DHT, JPG and DAC). */
  lemma MarkersAre(marker: Byte)
    ensures IsStandalone(marker) <==> marker in {0x01, 0xD0, 0xD1, 0xD2, 0xD3, 0xD4, 0xD5, 0xD6, 0xD7, 0xD8, 0xD9}
    ensures IsFrame(marker)
            <==> marker in {0xC0, 0xC1, 0xC2, 0xC3, 0xC5, 0xC6, 0xC7, 0xC9, 0xCA, 0xCB, 0xCD, 0xCE, 0xCF}
  {
  }

  // ----- The scan as a function of the bytes ahead -----

  function DropGarbage(data: seq<Byte>): (r: seq<Byte>)
    ensures |r| <= |data| && (r != [] ==> r[0] == FF)
  {
    if data != [] && data[0] != FF then DropGarbage(data[1..]) else data
  }

  function DropFill(data: seq<Byte>): (r: seq<Byte>)
    ensures |r| <= |data| && (r != [] ==> r[0] != FF)
  {
    if data != [] && data[0] == FF then DropFill(data[1..]) else data
  }

  /** Height and width in a segment that starts with its length. */
  function FrameDimensions(segment: seq<Byte>): Dimensions
    requires |segment| >= 7
  {
    (Big(segment[5..7]), Big(segment[3..5]))
  }

  function Scan(data: seq<Byte>): Option<Dimensions>
    decreases |data|
  {
    var ahead := DropFill(DropGarbage(data));
    if ahead == [] then None
    else ScanMarker(ahead[0], ahead[1..])
  }

  function ScanMarker(marker: Byte, data: seq<Byte>): Option<Dimensions>
    decreases |data| + 1
  {
    if IsStandalone(marker) then Scan(data)
    else if |data| < 2 then None
    else
      var length := Big(data[..2]);
      if length < 2 || length > |data| then None
      else if IsFrame(marker) then (if length < 7 then None else Some(FrameDimensions(data[..length])))
      else if marker == SOS then None
      else Scan(data[length..])
  }

  function JpegDimensions(data: seq<Byte>): Option<Dimensions> {
    if |data| < 4 || data[..2] != [FF, SOI] then None else Scan(data[2..])
  }

  // ----- The scan as the program does it -----

  lemma DropStep(data: seq<Byte>, i: nat)
    requires i < |data|
    ensures data[i] != FF ==> DropGarbage(data[i..]) == DropGarbage(data[i + 1..])
    ensures data[i] == FF ==> DropGarbage(data[i..]) == data[i..] && DropFill(data[i..]) == DropFill(data[i + 1..])
  {
    assert data[i..][1..] == data[i + 1..];
  }

  /** The nested loops over `offset`, none of which reads outside the data. */
  method FindDimensions(data: seq<Byte>) returns (dimensions: Option<Dimensions>)
    ensures dimensions == JpegDimensions(data)
  {
    hide Big, DropGarbage, DropFill, Scan, ScanMarker, IsStandalone, IsFrame;
    if |data| < 4 || data[..2] != [FF, SOI] {
      return None;
    }
    var offset := 2;
    while offset < |data|
      invariant 2 <= offset <= |data|
      invariant Scan(data[offset..]) == JpegDimensions(data)
    {
      ghost var start := offset;
      while offset < |data| && data[offset] != FF
        invariant start <= offset <= |data|
        invariant DropGarbage(data[offset..]) == DropGarbage(data[start..])
      {
        DropStep(data, offset);
        offset := offset + 1;
      }
      if offset < |data| { DropStep(data, offset); } else { Nothing(data[offset..]); }
      ghost var fill := data[offset..];
      while offset < |data| && data[offset] == FF
        invariant start <= offset <= |data|
        invariant DropFill(data[offset..]) == DropFill(DropGarbage(data[start..]))
        invariant offset == start ==> offset < |data| && data[offset] == FF
      {
        DropStep(data, offset);
        offset := offset + 1;
      }
      Stopped(data[offset..]);
      ScanAhead(data[start..], data[offset..]);
      if offset >= |data| {
        return None;
      }
      var marker := data[offset];
      offset := offset + 1;
      assert data[offset - 1..][1..] == data[offset..];
      assert ScanMarker(marker, data[offset..]) == JpegDimensions(data);
      ScanAfter(marker, data[offset..]);
      if IsStandalone(marker) {
        continue;
      }
      if offset + 2 > |data| {
        return None;
      }
      var segmentLength := Big(data[offset..offset + 2]);
      assert data[offset..][..2] == data[offset..offset + 2];
      if segmentLength < 2 || offset + segmentLength > |data| {
        return None;
      }
      if IsFrame(marker) {
        if segmentLength < 7 {
          return None;
        }
        var height := Big(data[offset + 3..offset + 5]);
        var width := Big(data[offset + 5..offset + 7]);
        assert data[offset..][..segmentLength][5..7] == data[offset + 5..offset + 7];
        assert data[offset..][..segmentLength][3..5] == data[offset + 3..offset + 5];
        return Some((width, height));
      }
      if marker == SOS {
        return None;
      }
      assert data[offset..][segmentLength..] == data[offset + segmentLength..];
      offset := offset + segmentLength;
    }
    Nothing(data[offset..]);
    ScanAhead(data[offset..], []);
    dimensions := None;
  }

  lemma ScanAhead(data: seq<Byte>, ahead: seq<Byte>)
    requires ahead == DropFill(DropGarbage(data))
    ensures Scan(data) == if ahead == [] then None else ScanMarker(ahead[0], ahead[1..])
  {
  }

  lemma ScanAfter(marker: Byte, data: seq<Byte>)
    ensures IsStandalone(marker) ==> ScanMarker(marker, data) == Scan(data)
    ensures !IsStandalone(marker) ==>
              ScanMarker(marker, data)
              == if |data| < 2 then None
                 else
                   var length := Big(data[..2]);
                   if length < 2 || length > |data| then None
                   else if IsFrame(marker) then (if length < 7 then None else Some(FrameDimensions(data[..length])))
                   else if marker == SOS then None
                   else Scan(data[length..])
  {
  }

  lemma Nothing(data: seq<Byte>)
    requires data == []
    ensures DropGarbage(data) == [] && DropFill(data) == []
  {
  }

  lemma Stopped(data: seq<Byte>)
    requires data == [] || data[0] != FF
    ensures DropFill(data) == data
  {
  }

  // ----- The grammar -----

  /** A marker without parameters, or a marker segment. `garbage` is what the scanner skips before
      the marker although the standard has nothing there; `fill` counts the extra FF bytes that
      section B.1.1.2 allows before a marker. */
  datatype Piece =
    | Standalone(garbage: seq<Byte>, fill: nat, marker: Byte)
    | Segment(garbage: seq<Byte>, fill: nat, marker: Byte, parameters: seq<Byte>)

  predicate ValidPiece(p: Piece) {
    FF !in p.garbage && p.marker != FF
    && match p
       case Standalone(_, _, marker) => IsStandalone(marker)
       case Segment(_, _, marker, parameters) =>
         !IsStandalone(marker) && !IsFrame(marker) && marker != SOS && |parameters| <= 65_533
  }

  /** A frame header segment: precision, height, width and the component parameters. */
  datatype Frame = Frame(garbage: seq<Byte>, fill: nat, marker: Byte, precision: Byte, height: nat, width: nat, components: seq<Byte>)

  predicate ValidFrame(f: Frame) {
    FF !in f.garbage && IsFrame(f.marker) && f.height < 65_536 && f.width < 65_536 && |f.components| <= 65_528
  }

  function Fill(count: nat): (r: seq<Byte>)
    ensures |r| == count && forall i :: 0 <= i < count ==> r[i] == FF
  {
    seq(count, _ => FF)
  }

  function MarkerBytes(garbage: seq<Byte>, fill: nat, marker: Byte): seq<Byte> {
    garbage + Fill(fill + 1) + [marker]
  }

  function SegmentBytes(parameters: seq<Byte>): seq<Byte> {
    BigBytes(|parameters| + 2, 2) + parameters
  }

  function PieceBytes(p: Piece): seq<Byte> {
    MarkerBytes(p.garbage, p.fill, p.marker) + if p.Segment? then SegmentBytes(p.parameters) else []
  }

  function PiecesBytes(pieces: seq<Piece>): seq<Byte> {
    if pieces == [] then [] else PieceBytes(pieces[0]) + PiecesBytes(pieces[1..])
  }

  function FrameBytes(f: Frame): seq<Byte> {
    MarkerBytes(f.garbage, f.fill, f.marker)
    + SegmentBytes([f.precision] + BigBytes(f.height, 2) + BigBytes(f.width, 2) + f.components)
  }

  function FileBytes(pieces: seq<Piece>, f: Frame, trailing: seq<Byte>): seq<Byte> {
    [FF, SOI] + PiecesBytes(pieces) + FrameBytes(f) + trailing
  }

  predicate ValidFile(pieces: seq<Piece>, f: Frame) {
    ValidFrame(f) && forall i :: 0 <= i < |pieces| ==> ValidPiece(pieces[i])
  }

  // ----- What is written is found -----

  lemma {:induction false} DropGarbageBytes(garbage: seq<Byte>, rest: seq<Byte>)
    requires FF !in garbage
    ensures DropGarbage(garbage + rest) == DropGarbage(rest)
  {
    if garbage == [] {
      assert garbage + rest == rest;
    } else {
      assert garbage[0] in garbage;
      assert (garbage + rest)[1..] == garbage[1..] + rest;
      DropGarbageBytes(garbage[1..], rest);
    }
  }

  lemma {:induction false} DropFillBytes(count: nat, rest: seq<Byte>)
    ensures DropFill(Fill(count) + rest) == DropFill(rest)
  {
    if count == 0 {
      assert Fill(0) + rest == rest;
    } else {
      assert (Fill(count) + rest)[1..] == Fill(count - 1) + rest;
      DropFillBytes(count - 1, rest);
    }
  }

  lemma ScanMarkerBytes(garbage: seq<Byte>, fill: nat, marker: Byte, rest: seq<Byte>)
    requires FF !in garbage && marker != FF
    ensures Scan(MarkerBytes(garbage, fill, marker) + rest) == ScanMarker(marker, rest)
  {
    var ahead := [marker] + rest;
    var filled := Fill(fill + 1) + ahead;
    assert MarkerBytes(garbage, fill, marker) + rest == garbage + filled;
    DropGarbageBytes(garbage, filled);
    assert filled[0] == FF;
    DropFillBytes(fill + 1, ahead);
    assert ahead[1..] == rest;
  }

  lemma SegmentLength(parameters: seq<Byte>, rest: seq<Byte>)
    requires |parameters| <= 65_533
    ensures var data := SegmentBytes(parameters) + rest;
            |data| >= 2 && Big(data[..2]) == |parameters| + 2 <= |data|
            && data[..|parameters| + 2] == SegmentBytes(parameters) && data[|parameters| + 2..] == rest
  {
    var data := SegmentBytes(parameters) + rest;
    assert data[..2] == BigBytes(|parameters| + 2, 2);
    assert Power256(2) == 65_536;
    BigOfBytes(|parameters| + 2, 2);
  }

  lemma ScanPiece(p: Piece, rest: seq<Byte>)
    requires ValidPiece(p)
    ensures Scan(PieceBytes(p) + rest) == Scan(rest)
  {
    hide Scan, MarkerBytes, SegmentBytes, Big, IsFrame;
    match p
    case Standalone(garbage, fill, marker) =>
      ScanMarkerBytes(garbage, fill, marker, rest);
      assert PieceBytes(p) == MarkerBytes(garbage, fill, marker);
    case Segment(garbage, fill, marker, parameters) =>
      var after := SegmentBytes(parameters) + rest;
      assert PieceBytes(p) + rest == MarkerBytes(garbage, fill, marker) + after;
      ScanMarkerBytes(garbage, fill, marker, after);
      SegmentLength(parameters, rest);
  }

  lemma {:induction false} ScanPieces(pieces: seq<Piece>, rest: seq<Byte>)
    requires forall i :: 0 <= i < |pieces| ==> ValidPiece(pieces[i])
    ensures Scan(PiecesBytes(pieces) + rest) == Scan(rest)
  {
    hide Scan, PieceBytes, ValidPiece;
    if pieces == [] {
      assert PiecesBytes(pieces) + rest == rest;
    } else {
      assert PiecesBytes(pieces) + rest == PieceBytes(pieces[0]) + (PiecesBytes(pieces[1..]) + rest);
      ScanPiece(pieces[0], PiecesBytes(pieces[1..]) + rest);
      ScanPieces(pieces[1..], rest);
    }
  }

  lemma ScanFrame(f: Frame, rest: seq<Byte>)
    requires ValidFrame(f)
    ensures Scan(FrameBytes(f) + rest) == Some((f.width, f.height))
  {
    var parameters := [f.precision] + BigBytes(f.height, 2) + BigBytes(f.width, 2) + f.components;
    var after := SegmentBytes(parameters) + rest;
    assert FrameBytes(f) + rest == MarkerBytes(f.garbage, f.fill, f.marker) + after;
    ScanMarkerBytes(f.garbage, f.fill, f.marker, after);
    SegmentLength(parameters, rest);
    var segment := SegmentBytes(parameters);
    assert segment[3..5] == BigBytes(f.height, 2) && segment[5..7] == BigBytes(f.width, 2);
    assert Power256(2) == 65_536;
    BigOfBytes(f.height, 2);
    BigOfBytes(f.width, 2);
    hide Scan, Big;
  }

  /** After SOI, any list of fill-padded standalone markers and non-frame, non-scan segments, and a
      frame header, the dimensions of that frame header are found, whatever follows. */
  lemma WrittenDimensionsAreFound(pieces: seq<Piece>, f: Frame, trailing: seq<Byte>)
    requires ValidFile(pieces, f)
    ensures JpegDimensions(FileBytes(pieces, f, trailing)) == Some((f.width, f.height))
  {
    var data := FileBytes(pieces, f, trailing);
    var rest := FrameBytes(f) + trailing;
    assert data[2..] == PiecesBytes(pieces) + rest;
    assert data[..2] == [FF, SOI];
    ScanPieces(pieces, rest);
    ScanFrame(f, trailing);
  }

  // ----- What is found was written -----

  lemma {:induction false} GarbageOf(data: seq<Byte>) returns (garbage: seq<Byte>)
    ensures data == garbage + DropGarbage(data) && FF !in garbage
  {
    garbage := [];
    if data != [] && data[0] != FF {
      var more := GarbageOf(data[1..]);
      garbage := [data[0]] + more;
      assert DropGarbage(data) == DropGarbage(data[1..]);
      assert data == [data[0]] + data[1..];
      assert FF !in garbage;
    }
  }

  lemma {:induction false} FillOf(data: seq<Byte>) returns (count: nat)
    ensures data == Fill(count) + DropFill(data)
    ensures data != [] && data[0] == FF ==> count > 0
  {
    count := 0;
    if data != [] && data[0] == FF {
      var more := FillOf(data[1..]);
      count := more + 1;
      assert data == [FF] + data[1..];
    }
  }

  lemma MarkerOf(data: seq<Byte>) returns (garbage: seq<Byte>, fill: nat, marker: Byte, rest: seq<Byte>)
    requires Scan(data).Some?
    ensures FF !in garbage && marker != FF && data == MarkerBytes(garbage, fill, marker) + rest
    ensures Scan(data) == ScanMarker(marker, rest) && |rest| < |data|
  {
    garbage := GarbageOf(data);
    var filled := DropGarbage(data);
    var count := FillOf(filled);
    var ahead := DropFill(filled);
    fill, marker, rest := count - 1, ahead[0], ahead[1..];
    assert ahead == [marker] + rest;
  }

  lemma SegmentOf(data: seq<Byte>, length: nat) returns (parameters: seq<Byte>)
    requires 2 <= length <= |data| && Big(data[..2]) == length
    ensures |parameters| == length - 2 <= 65_533 && data == SegmentBytes(parameters) + data[length..]
    ensures data[..length] == SegmentBytes(parameters)
  {
    Big2(data[..2]);
    parameters := data[2..length];
    assert data == data[..2] + parameters + data[length..];
    assert data[..length] == data[..2] + parameters;
  }

  lemma FrameOf(segment: seq<Byte>, parameters: seq<Byte>) returns (precision: Byte, height: nat, width: nat, components: seq<Byte>)
    requires |segment| >= 7 && segment == SegmentBytes(parameters) && |parameters| <= 65_533
    ensures parameters == [precision] + BigBytes(height, 2) + BigBytes(width, 2) + components
    ensures FrameDimensions(segment) == (width, height) && height < 65_536 && width < 65_536 && |components| <= 65_528
  {
    Big2(segment[3..5]);
    Big2(segment[5..7]);
    precision, height, width, components := parameters[0], Big(segment[3..5]), Big(segment[5..7]), parameters[5..];
    assert segment[2..] == parameters;
    assert segment[3..5] == parameters[1..3] && segment[5..7] == parameters[3..5];
    assert parameters == [parameters[0]] + parameters[1..3] + parameters[3..5] + parameters[5..];
  }

  lemma {:induction false} FileOf(data: seq<Byte>) returns (pieces: seq<Piece>, f: Frame, trailing: seq<Byte>)
    requires Scan(data).Some?
    ensures ValidFile(pieces, f) && data == PiecesBytes(pieces) + FrameBytes(f) + trailing
    ensures Scan(data) == Some((f.width, f.height))
    decreases |data|
  {
    hide MarkerBytes, SegmentBytes, FrameBytes, PieceBytes, PiecesBytes, ValidFile, Scan, Big;
    var garbage, fill, marker, rest := MarkerOf(data);
    if IsStandalone(marker) {
      var more;
      more, f, trailing := FileOf(rest);
      var p := Standalone(garbage, fill, marker);
      StandaloneBytes(garbage, fill, marker);
      pieces := [p] + more;
      Reassemble(p, more, f, trailing, rest);
    } else {
      var length := Big(rest[..2]);
      var parameters := SegmentOf(rest, length);
      if IsFrame(marker) {
        var precision, height, width, components := FrameOf(rest[..length], parameters);
        f := Frame(garbage, fill, marker, precision, height, width, components);
        pieces, trailing := [], rest[length..];
        FrameBytesAre(f, parameters);
        NoPieces(f);
        assert data == [] + FrameBytes(f) + trailing;
      } else {
        var more;
        more, f, trailing := FileOf(rest[length..]);
        var p := Segment(garbage, fill, marker, parameters);
        SegmentPieceBytes(p);
        pieces := [p] + more;
        assert data == PieceBytes(p) + rest[length..];
        Reassemble(p, more, f, trailing, rest[length..]);
      }
    }
  }

  lemma NoPieces(f: Frame)
    requires ValidFrame(f)
    ensures ValidFile([], f) && PiecesBytes([]) == []
  {
  }

  lemma Reassemble(p: Piece, more: seq<Piece>, f: Frame, trailing: seq<Byte>, rest: seq<Byte>)
    requires ValidFile(more, f) && ValidPiece(p) && rest == PiecesBytes(more) + FrameBytes(f) + trailing
    ensures ValidFile([p] + more, f) && PieceBytes(p) + rest == PiecesBytes([p] + more) + FrameBytes(f) + trailing
  {
    hide ValidPiece, ValidFrame, PieceBytes, FrameBytes;
    assert ([p] + more)[1..] == more;
    assert PiecesBytes([p] + more) == PieceBytes(p) + PiecesBytes(more);
  }

  lemma StandaloneBytes(garbage: seq<Byte>, fill: nat, marker: Byte)
    ensures PieceBytes(Standalone(garbage, fill, marker)) == MarkerBytes(garbage, fill, marker)
  {
  }

  lemma SegmentPieceBytes(p: Piece)
    requires p.Segment?
    ensures PieceBytes(p) == MarkerBytes(p.garbage, p.fill, p.marker) + SegmentBytes(p.parameters)
  {
  }

  lemma FrameBytesAre(f: Frame, parameters: seq<Byte>)
    requires parameters == [f.precision] + BigBytes(f.height, 2) + BigBytes(f.width, 2) + f.components
    ensures FrameBytes(f) == MarkerBytes(f.garbage, f.fill, f.marker) + SegmentBytes(parameters)
  {
  }

  /** The scanner answers with dimensions exactly on files that are SOI, such pieces and a frame
      header with those dimensions. */
  lemma FoundExactly(data: seq<Byte>, width: nat, height: nat)
    ensures JpegDimensions(data) == Some((width, height))
            <==> exists pieces, f, trailing ::
                   data == FileBytes(pieces, f, trailing) && ValidFile(pieces, f) && f.width == width && f.height == height
  {
    if JpegDimensions(data) == Some((width, height)) {
      var pieces, f, trailing := FileOf(data[2..]);
      assert data == [FF, SOI] + data[2..];
      assert data == FileBytes(pieces, f, trailing);
    }
    forall pieces, f, trailing | data == FileBytes(pieces, f, trailing) && ValidFile(pieces, f)
      ensures JpegDimensions(data) == Some((f.width, f.height))
    {
      WrittenDimensionsAreFound(pieces, f, trailing);
    }
  }
}
