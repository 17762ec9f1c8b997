/**
  Frame and mapping layout: the checked constructors and validators of
  adapters/shared-memory/src/layout.rs, and the camera format bounds they use.
 */
module Layout {
  import opened Prelude
  import opened Arithmetic

  const MAX_CAMERA_WIDTH := 4096
  const MAX_CAMERA_HEIGHT := 2160
  const MAX_CAMERA_FRAME_BYTES := 24 * 1024 * 1024
  const MIN_CAMERA_SLOT_COUNT := 4
  const MAX_CAMERA_SLOT_COUNT := 8

  const MAX_MAPPING_BYTES := 256 * 1024 * 1024
  const HEADER_BYTES := 192
  const SLOT_HEADER_BYTES := 128
  const SLOT_ALIGNMENT := 64
  const MAX_PLANES := 3

  datatype PixelFormat = Nv12 | Yuyv | Mjpeg

  datatype CameraFormat = CameraFormat(pixel: PixelFormat, width: u32, height: u32)

  datatype PlaneLayout = PlaneLayout(offset: u32, length: u32, stride: u32)

  datatype RingConfig = RingConfig(
    format: CameraFormat,
    slotCount: nat,
    payloadCapacity: nat,
    slotStride: nat,
    totalLength: nat)

  datatype LayoutError = Invalid

  // ----- Camera formats -----

  function WorstCaseFrameBytes(f: CameraFormat): Option<nat> {
    match CheckedMul(f.width, f.height)
    case None => None
    case Some(pixels) =>
      match f.pixel
      case Nv12 =>
        (match CheckedMul(pixels, 3)
         case None => None
         case Some(bytes) => Some(bytes / 2))
      case Yuyv => CheckedMul(pixels, 2)
      case Mjpeg => Some(MAX_CAMERA_FRAME_BYTES)
  }

  predicate ValidFormat(f: CameraFormat) {
    && f.width != 0 && f.height != 0
    && f.width <= MAX_CAMERA_WIDTH && f.height <= MAX_CAMERA_HEIGHT
    && var worst := WorstCaseFrameBytes(f);
       worst.Some? && worst.value <= MAX_CAMERA_FRAME_BYTES
  }

  // ----- Ring geometry -----

  /** Rounds up to a multiple of `alignment`; `None` when the addition overflows. */
  function AlignUp(value: nat, alignment: nat): (r: Option<nat>)
    requires alignment > 0
  {
    match CheckedAdd(value, alignment - 1)
    case None => None
    case Some(v) => Some(v / alignment * alignment)
  }

  lemma AlignUpIsLeastMultiple(value: nat, alignment: nat)
    requires alignment > 0
    requires AlignUp(value, alignment).Some?
    ensures var r := AlignUp(value, alignment).value;
            r % alignment == 0 && value <= r < value + alignment
  {
    var v := value + alignment - 1;
    var q := v / alignment;
    assert v == q * alignment + v % alignment;
    MultipleHasNoRemainder(q, alignment);
  }

  function NewRingConfig(format: CameraFormat, slotCount: nat, payloadCapacity: nat): Result<RingConfig, LayoutError> {
    if !ValidFormat(format) then Err(Invalid)
    else if !(MIN_CAMERA_SLOT_COUNT <= slotCount <= MAX_CAMERA_SLOT_COUNT) then Err(Invalid)
    else if payloadCapacity > MAX_CAMERA_FRAME_BYTES || payloadCapacity < WorstCaseFrameBytes(format).value then Err(Invalid)
    else
      match CheckedAdd(SLOT_HEADER_BYTES, payloadCapacity)
      case None => Err(Invalid)
      case Some(unaligned) =>
        match AlignUp(unaligned, SLOT_ALIGNMENT)
        case None => Err(Invalid)
        case Some(stride) =>
          match CheckedMul(stride, slotCount)
          case None => Err(Invalid)
          case Some(slots) =>
            match CheckedAdd(HEADER_BYTES, slots)
            case None => Err(Invalid)
            case Some(total) =>
              if total > MAX_MAPPING_BYTES then Err(Invalid)
              else Ok(RingConfig(format, slotCount, payloadCapacity, stride, total))
  }

  /** A configuration some call of `NewRingConfig` returned. */
  predicate Accepted(c: RingConfig) {
    NewRingConfig(c.format, c.slotCount, c.payloadCapacity) == Ok(c)
  }

  function SlotBase(c: RingConfig, i: nat): nat { HEADER_BYTES + i * c.slotStride }

  /** The overflow and mapping-size branches are dead: only the three public bounds decide. */
  lemma ConfigAcceptedIff(format: CameraFormat, slotCount: nat, payloadCapacity: nat)
    ensures NewRingConfig(format, slotCount, payloadCapacity).Ok? <==>
            && ValidFormat(format)
            && MIN_CAMERA_SLOT_COUNT <= slotCount <= MAX_CAMERA_SLOT_COUNT
            && WorstCaseFrameBytes(format).value <= payloadCapacity <= MAX_CAMERA_FRAME_BYTES
  {
    if && ValidFormat(format)
       && MIN_CAMERA_SLOT_COUNT <= slotCount <= MAX_CAMERA_SLOT_COUNT
       && WorstCaseFrameBytes(format).value <= payloadCapacity <= MAX_CAMERA_FRAME_BYTES
    {
      AlignUpIsLeastMultiple(SLOT_HEADER_BYTES + payloadCapacity, SLOT_ALIGNMENT);
      var stride := AlignUp(SLOT_HEADER_BYTES + payloadCapacity, SLOT_ALIGNMENT).value;
      assert stride <= 25165952 + 64;
      assert stride * slotCount <= stride * 8;
    }
  }

  lemma StrideFacts(payloadCapacity: nat, stride: nat, slotCount: nat)
    requires slotCount >= 1 && AlignUp(SLOT_HEADER_BYTES + payloadCapacity, SLOT_ALIGNMENT) == Some(stride)
    ensures SLOT_HEADER_BYTES + payloadCapacity <= stride < SLOT_HEADER_BYTES + payloadCapacity + SLOT_ALIGNMENT
    ensures stride <= stride * slotCount && stride % SLOT_ALIGNMENT == 0
  {
    AlignUpIsLeastMultiple(SLOT_HEADER_BYTES + payloadCapacity, SLOT_ALIGNMENT);
    MulAtLeast(slotCount, stride);
  }

  /** What an accepted configuration promises about its sizes. */
  lemma AcceptedSizes(c: RingConfig)
    requires Accepted(c)
    ensures ValidFormat(c.format)
    ensures MIN_CAMERA_SLOT_COUNT <= c.slotCount <= MAX_CAMERA_SLOT_COUNT
    ensures c.payloadCapacity <= MAX_CAMERA_FRAME_BYTES
    ensures SLOT_HEADER_BYTES + c.payloadCapacity <= c.slotStride < SLOT_HEADER_BYTES + c.payloadCapacity + SLOT_ALIGNMENT
    ensures c.slotStride % SLOT_ALIGNMENT == 0
    ensures c.totalLength == HEADER_BYTES + c.slotStride * c.slotCount <= MAX_MAPPING_BYTES
    ensures c.slotStride <= MAX_MAPPING_BYTES
  {
    StrideFacts(c.payloadCapacity, c.slotStride, c.slotCount);
  }

  lemma AlignedProduct(i: nat, stride: nat)
    requires stride % SLOT_ALIGNMENT == 0
    ensures (HEADER_BYTES + i * stride) % SLOT_ALIGNMENT == 0
  {
    var k := stride / SLOT_ALIGNMENT;
    assert i * stride == (i * k) * SLOT_ALIGNMENT by {
      assert stride == k * SLOT_ALIGNMENT;
      Associate(i, k, SLOT_ALIGNMENT);
    }
    assert HEADER_BYTES + i * stride == (3 + i * k) * SLOT_ALIGNMENT;
  }

  lemma Associate(a: nat, b: nat, c: nat)
    ensures a * (b * c) == (a * b) * c
  {
  }

  lemma RowInside(row: nat, rows: nat, stride: nat)
    requires row < rows
    ensures row * stride + stride <= stride * rows
  {
    MulMonotone(row + 1, rows, stride);
    assert (row + 1) * stride == row * stride + stride;
  }

  /** Each slot starts on a 64-byte boundary past the header and ends inside the mapping. */
  lemma SlotsFit(c: RingConfig, i: nat)
    requires Accepted(c) && i < c.slotCount
    ensures SlotBase(c, i) % SLOT_ALIGNMENT == 0
    ensures HEADER_BYTES <= SlotBase(c, i)
    ensures SlotBase(c, i) + c.slotStride <= c.totalLength
    ensures SlotBase(c, i) + SLOT_HEADER_BYTES + c.payloadCapacity <= c.totalLength
  {
    AcceptedSizes(c);
    RowInside(i, c.slotCount, c.slotStride);
    AlignedProduct(i, c.slotStride);
  }

  /** Different slots occupy disjoint byte ranges. */
  lemma SlotsDisjoint(c: RingConfig, i: nat, j: nat)
    requires i < j
    ensures SlotBase(c, i) + c.slotStride <= SlotBase(c, j)
  {
    MulMonotone(i + 1, j, c.slotStride);
    assert (i + 1) * c.slotStride == i * c.slotStride + c.slotStride;
  }

  // ----- Planes -----

  function NewPlaneLayout(offset: nat, length: nat, stride: nat): Option<PlaneLayout> {
    if offset > U32_MAX || length > U32_MAX || stride > U32_MAX then None
    else if length == 0 || stride == 0 then None
    else if offset + length > U32_MAX then None
    else Some(PlaneLayout(offset, length, stride))
  }

  /** A plane some call of `NewPlaneLayout` returned. */
  predicate WellFormedPlane(p: PlaneLayout) {
    NewPlaneLayout(p.offset, p.length, p.stride) == Some(p)
  }

  predicate WellFormedPlanes(planes: seq<PlaneLayout>) {
    forall i :: 0 <= i < |planes| ==> WellFormedPlane(planes[i])
  }

  predicate ValidDimensions(format: PixelFormat, width: u32, height: u32) {
    && width != 0 && height != 0
    && width <= MAX_CAMERA_WIDTH && height <= MAX_CAMERA_HEIGHT
    && (format == Nv12 ==> width % 2 == 0 && height % 2 == 0)
  }

  function ExpectedPlanes(format: PixelFormat): nat {
    if format == Nv12 then 2 else 1
  }

  /** The smallest stride and the row count the format demands of plane `k`. */
  function MinimumPlane(format: PixelFormat, width: u32, height: u32, k: nat): (nat, nat) {
    match format
    case Nv12 => if k == 0 then (width, height) else if k == 1 then (width, height / 2) else (0, 0)
    case Yuyv => if k == 0 then (2 * width, height) else (0, 0)
    case Mjpeg => (0, 0)
  }

  /** The source sorts the ranges by start; at most two are left when it does. */
  function SortedByOffset(ranges: seq<(nat, nat)>): seq<(nat, nat)> {
    if |ranges| == 2 && ranges[1].0 < ranges[0].0 then [ranges[1], ranges[0]] else ranges
  }

  predicate NeighboursOverlap(ranges: seq<(nat, nat)>) {
    exists i :: 0 <= i < |ranges| - 1 && ranges[i].1 > ranges[i + 1].0
  }

  function Ranges(planes: seq<PlaneLayout>): (r: seq<(nat, nat)>)
    ensures |r| == |planes|
    ensures forall i :: 0 <= i < |planes| ==> r[i] == (planes[i].offset, planes[i].offset + planes[i].length)
  {
    seq(|planes|, i requires 0 <= i < |planes| => (planes[i].offset, planes[i].offset + planes[i].length))
  }

  predicate PlaneHolds(p: PlaneLayout, minimumStride: nat, rows: nat) {
    p.stride >= minimumStride && p.length >= p.stride * rows
  }

  predicate ValidatePlanes(format: PixelFormat, width: u32, height: u32, planes: seq<PlaneLayout>, payloadLength: nat) {
    && |planes| == ExpectedPlanes(format) && |planes| <= MAX_PLANES
    && (forall i :: 0 <= i < |planes| ==> planes[i].offset + planes[i].length <= payloadLength)
    && (forall i :: 0 <= i < |planes| ==>
          var (minimumStride, rows) := MinimumPlane(format, width, height, i);
          PlaneHolds(planes[i], minimumStride, rows))
    && !NeighboursOverlap(SortedByOffset(Ranges(planes)))
  }

  predicate RangesDisjoint(p: PlaneLayout, q: PlaneLayout) {
    p.offset + p.length <= q.offset || q.offset + q.length <= p.offset
  }

  /** The sort-and-compare-neighbours test is exactly pairwise disjointness. */
  lemma NeighbourTestIsDisjointness(planes: seq<PlaneLayout>)
    requires |planes| <= 2 && WellFormedPlanes(planes)
    ensures !NeighboursOverlap(SortedByOffset(Ranges(planes))) <==>
            forall i, j :: 0 <= i < j < |planes| ==> RangesDisjoint(planes[i], planes[j])
  {
    var sorted := SortedByOffset(Ranges(planes));
    if |planes| == 2 {
      assert NeighboursOverlap(sorted) <==> sorted[0].1 > sorted[1].0 by {
        if sorted[0].1 > sorted[1].0 {
          assert sorted[0].1 > sorted[0 + 1].0;
        }
      }
      assert WellFormedPlane(planes[0]) && WellFormedPlane(planes[1]);
    }
  }

  /** A longer payload never turns an accepted plane table into a rejected one. */
  lemma LongerPayloadStillAccepts(format: PixelFormat, width: u32, height: u32, planes: seq<PlaneLayout>, a: nat, b: nat)
    requires ValidatePlanes(format, width, height, planes, a) && a <= b
    ensures ValidatePlanes(format, width, height, planes, b)
  {
  }

  /** A plane of `rows` rows of `rowBytes` bytes that ends inside the payload. */
  predicate Covers(p: PlaneLayout, rowBytes: nat, rows: nat, payloadLength: nat) {
    rowBytes <= p.stride && p.stride * rows <= p.length && p.offset + p.length <= payloadLength
  }

  /**
    What is accepted, said of the pictures: NV12 is a luma plane of all rows and a chroma plane of half
    as many, disjoint; YUYV is one plane of two bytes a pixel; MJPEG is any one range of the payload.
   */
  lemma PlanesAcceptedIff(format: PixelFormat, width: u32, height: u32, planes: seq<PlaneLayout>, payloadLength: nat)
    requires WellFormedPlanes(planes)
    ensures ValidatePlanes(format, width, height, planes, payloadLength) <==>
            match format
            case Nv12 =>
              && |planes| == 2 && Covers(planes[0], width, height, payloadLength)
              && Covers(planes[1], width, height / 2, payloadLength) && RangesDisjoint(planes[0], planes[1])
            case Yuyv => |planes| == 1 && Covers(planes[0], 2 * width, height, payloadLength)
            case Mjpeg => |planes| == 1 && planes[0].offset + planes[0].length <= payloadLength
  {
    if |planes| <= 2 { NeighbourTestIsDisjointness(planes); }
    if format == Nv12 && |planes| == 2 {
      assert ValidatePlanes(format, width, height, planes, payloadLength) ==>
          PlaneHolds(planes[0], width, height) && PlaneHolds(planes[1], width, height / 2);
    }
    if format == Yuyv && |planes| == 1 {
      assert ValidatePlanes(format, width, height, planes, payloadLength) ==> PlaneHolds(planes[0], 2 * width, height);
    }
  }

  /** The frame with no padding: each plane directly after the one before it. */
  function TightPlanes(f: CameraFormat): seq<PlaneLayout>
    requires ValidFormat(f)
  {
    FramePixels(f);
    match f.pixel
    case Nv12 =>
      [PlaneLayout(0, f.width * f.height, f.width), PlaneLayout(f.width * f.height, f.width * (f.height / 2), f.width)]
    case Yuyv => [PlaneLayout(0, 2 * f.width * f.height, 2 * f.width)]
    case Mjpeg => [PlaneLayout(0, 1, 1)]
  }

  lemma FramePixels(f: CameraFormat)
    requires ValidFormat(f)
    ensures f.width * f.height <= MAX_CAMERA_WIDTH * MAX_CAMERA_HEIGHT
    ensures f.width * (f.height / 2) <= f.width * f.height
  {
    MulMonotone(f.width, MAX_CAMERA_WIDTH, f.height);
    MulMonotone(f.height / 2, f.height, f.width);
  }

  ghost predicate HoldsAFrame(f: CameraFormat, n: nat) {
    exists planes :: WellFormedPlanes(planes) && ValidatePlanes(f.pixel, f.width, f.height, planes, n)
  }

  /** The worst case is exactly the space an uncompressed frame needs: that many bytes hold one and fewer hold none. */
  lemma WorstCaseIsLeast(f: CameraFormat, n: nat)
    requires ValidFormat(f) && ValidDimensions(f.pixel, f.width, f.height) && f.pixel != Mjpeg
    ensures HoldsAFrame(f, n) <==> n >= WorstCaseFrameBytes(f).value
  {
    FramePixels(f);
    WorstCaseIs(f);
    var tight := TightPlanes(f);
    PlanesAcceptedIff(f.pixel, f.width, f.height, tight, n);
    if n >= WorstCaseFrameBytes(f).value {
      assert ValidatePlanes(f.pixel, f.width, f.height, tight, n);
    }
    forall planes | WellFormedPlanes(planes) && ValidatePlanes(f.pixel, f.width, f.height, planes, n)
      ensures n >= WorstCaseFrameBytes(f).value
    {
      AcceptedFrameIsLarge(f, planes, n);
    }
  }

  lemma WorstCaseIs(f: CameraFormat)
    requires ValidFormat(f) && ValidDimensions(f.pixel, f.width, f.height)
    ensures f.pixel == Nv12 ==> WorstCaseFrameBytes(f).value == f.width * f.height + f.width * (f.height / 2)
    ensures f.pixel == Yuyv ==> WorstCaseFrameBytes(f).value == 2 * f.width * f.height
  {
    if f.pixel == Nv12 {
      var half := f.height / 2;
      assert f.width * f.height == 2 * (f.width * half) by {
        assert f.height == 2 * half;
        Associate(2, f.width, half);
      }
      assert WorstCaseFrameBytes(f).value == 6 * (f.width * half) / 2;
    }
  }

  lemma AcceptedFrameIsLarge(f: CameraFormat, planes: seq<PlaneLayout>, n: nat)
    requires ValidFormat(f) && ValidDimensions(f.pixel, f.width, f.height)
    requires WellFormedPlanes(planes) && ValidatePlanes(f.pixel, f.width, f.height, planes, n)
    ensures f.pixel != Mjpeg ==> n >= WorstCaseFrameBytes(f).value
  {
    PlanesAcceptedIff(f.pixel, f.width, f.height, planes, n);
    WorstCaseIs(f);
    if f.pixel == Nv12 {
      MulMonotone(f.width, planes[0].stride, f.height);
      MulMonotone(f.width, planes[1].stride, f.height / 2);
    } else if f.pixel == Yuyv {
      MulMonotone(2 * f.width, planes[0].stride, f.height);
    }
  }

  // ----- Pixel rows -----

  /** The pixel rows of plane `k`: all of an NV12 image's luma, half as many of its chroma, all of a YUYV image. */
  function PixelRows(format: PixelFormat, height: u32, k: nat): nat {
    match format
    case Nv12 => if k == 0 then height else if k == 1 then height / 2 else 0
    case Yuyv => if k == 0 then height else 0
    case Mjpeg => 0
  }

  /** Bytes of one pixel row of a plane. */
  function RowBytes(format: PixelFormat, width: u32): nat {
    match format
    case Nv12 => width
    case Yuyv => 2 * width
    case Mjpeg => 0
  }

  function RowStart(p: PlaneLayout, row: nat): nat { p.offset + row * p.stride }

  predicate RowOf(format: PixelFormat, height: u32, planes: seq<PlaneLayout>, k: nat, row: nat) {
    k < |planes| && row < PixelRows(format, height, k)
  }

  /** Every pixel row of every accepted plane lies inside its plane, hence inside the payload. */
  lemma RowsStayInside(format: PixelFormat, width: u32, height: u32, planes: seq<PlaneLayout>, payloadLength: nat, k: nat, row: nat)
    requires ValidatePlanes(format, width, height, planes, payloadLength)
    requires RowOf(format, height, planes, k, row)
    ensures planes[k].offset <= RowStart(planes[k], row)
    ensures RowStart(planes[k], row) + RowBytes(format, width) <= planes[k].offset + planes[k].length <= payloadLength
  {
    var (minimumStride, rows) := MinimumPlane(format, width, height, k);
    RowOfPlane(planes[k], minimumStride, rows, row);
  }

  lemma RowOfPlane(p: PlaneLayout, minimumStride: nat, rows: nat, row: nat)
    requires PlaneHolds(p, minimumStride, rows) && row < rows
    ensures p.offset <= RowStart(p, row) && RowStart(p, row) + minimumStride <= p.offset + p.length
  {
    RowInside(row, rows, p.stride);
  }

  /** Two different pixel rows of an accepted frame never share a byte. */
  lemma RowsAreDisjoint(
    format: PixelFormat, width: u32, height: u32, planes: seq<PlaneLayout>, payloadLength: nat,
    k: nat, row: nat, k': nat, row': nat)
    requires WellFormedPlanes(planes)
    requires ValidatePlanes(format, width, height, planes, payloadLength)
    requires RowOf(format, height, planes, k, row)
    requires RowOf(format, height, planes, k', row')
    requires (k, row) != (k', row')
    ensures || RowStart(planes[k], row) + RowBytes(format, width) <= RowStart(planes[k'], row')
            || RowStart(planes[k'], row') + RowBytes(format, width) <= RowStart(planes[k], row)
  {
    RowsStayInside(format, width, height, planes, payloadLength, k, row);
    RowsStayInside(format, width, height, planes, payloadLength, k', row');
    if k == k' {
      RowsOfOnePlane(planes[k], RowBytes(format, width), row, row');
    } else {
      NeighbourTestIsDisjointness(planes);
      assert RangesDisjoint(planes[if k < k' then k else k'], planes[if k < k' then k' else k]);
    }
  }

  lemma RowsOfOnePlane(p: PlaneLayout, rowBytes: nat, row: nat, row': nat)
    requires p.stride >= rowBytes && row != row'
    ensures RowStart(p, row) + rowBytes <= RowStart(p, row') || RowStart(p, row') + rowBytes <= RowStart(p, row)
  {
    var lo, hi := if row < row' then row else row', if row < row' then row' else row;
    assert (lo + 1) * p.stride <= hi * p.stride;
    assert lo * p.stride + p.stride == (lo + 1) * p.stride;
  }

  // ----- Frame metadata -----

  datatype FrameMetadata = FrameMetadata(
    format: PixelFormat,
    width: u32,
    height: u32,
    sequence: u64,
    generation: u64,
    timestamp: u64,
    droppedCount: u64,
    planes: seq<PlaneLayout>)

  /** What the checked constructor demands of a metadata value. */
  predicate ValidMetadata(m: FrameMetadata) {
    && WellFormedPlanes(m.planes)
    && ValidDimensions(m.format, m.width, m.height)
    && ValidatePlanes(m.format, m.width, m.height, m.planes, MAX_CAMERA_FRAME_BYTES)
  }
}
