/**
  From a native sample to a published frame: the payload checks and plane computations of the
  V4L2 and Media Foundation adapters (adapters/v4l2/src/native.rs,
  adapters/mediafoundation/src/native.rs), the public camera checks
  (crates/robot-hal-camera/src/lib.rs) and the conversion into shared-memory metadata
  (crates/robot-hal-runtime/src/camera_manager.rs).
 */
module CameraPlanes {
  import opened Prelude
  import opened Arithmetic
  import opened Layout
  import opened Ring

  datatype CameraPlane = CameraPlane(offset: nat, length: nat, stride: nat)

  function NewCameraPlane(offset: nat, length: nat, stride: nat): Option<CameraPlane> {
    if length == 0 || stride == 0 then None
    else if CheckedAdd(offset, length).None? then None
    else Some(CameraPlane(offset, length, stride))
  }

  function DivCeil2(n: nat): nat { (n + 1) / 2 }

  /** The bytes an NV12 image of this stride needs, when the arithmetic does not overflow. */
  function Nv12Bytes(stride: nat, height: nat): Option<nat> {
    match CheckedMul(stride, height)
    case None => None
    case Some(y) =>
      match CheckedMul(stride, DivCeil2(height))
      case None => None
      case Some(uv) => CheckedAdd(y, uv)
  }

  // ----- V4L2 -----

  /** The bounds and layout checks of `capture_one`; `mapped` is the length of the driver's buffer. */
  predicate V4l2Accepts(f: CameraFormat, stride: nat, mapped: nat, used: nat) {
    && used != 0 && used <= mapped && used <= MAX_CAMERA_FRAME_BYTES
    && WorstCaseFrameBytes(f).Some? && used <= WorstCaseFrameBytes(f).value
    && match f.pixel
       case Nv12 =>
         var minimum := Nv12Bytes(stride, f.height);
         minimum.Some? && stride >= f.width && used >= minimum.value && mapped >= minimum.value
       case Yuyv =>
         var minimum := CheckedMul(stride, f.height);
         minimum.Some? && stride >= 2 * f.width && used >= minimum.value && mapped >= minimum.value
       case Mjpeg => true
  }

  /** One plane for packed formats, luma then chroma for NV12. Both adapters compute these. */
  function SamplePlanes(f: CameraFormat, stride: nat, used: nat): Option<seq<CameraPlane>> {
    match f.pixel
    case Nv12 =>
      (match Nv12Bytes(stride, f.height)
       case None => None
       case Some(end) =>
         if end > used then None
         else
           var y := NewCameraPlane(0, stride * f.height, stride);
           var uv := NewCameraPlane(stride * f.height, stride * DivCeil2(f.height), stride);
           if y.None? || uv.None? then None else Some([y.value, uv.value]))
    case Yuyv => (var p := NewCameraPlane(0, used, stride); if p.None? then None else Some([p.value]))
    case Mjpeg => (var p := NewCameraPlane(0, used, stride); if p.None? then None else Some([p.value]))
  }

  // ----- Media Foundation -----

  predicate ValidStride(f: CameraFormat, stride: nat) {
    match f.pixel
    case Nv12 => stride >= f.width
    case Yuyv => stride >= 2 * f.width
    case Mjpeg => stride > 0
  }

  predicate MediaFoundationAccepts(f: CameraFormat, stride: nat, maximum: nat, used: nat) {
    && used != 0 && used <= maximum && used <= MAX_CAMERA_FRAME_BYTES
    && ValidStride(f, stride)
    && var required := (match f.pixel
                        case Nv12 => Nv12Bytes(stride, f.height)
                        case Yuyv => CheckedMul(stride, f.height)
                        case Mjpeg => Some(1));
       required.Some? && used >= required.value
  }

  // ----- From planes to a publishable frame -----

  /** The public camera frame checks, with the chroma rows rounded up. */
  predicate CameraAccepts(f: CameraFormat, planes: seq<CameraPlane>, used: nat) {
    && ValidFormat(f)
    && |planes| == ExpectedPlanes(f.pixel)
    && (match f.pixel
        case Nv12 =>
          && planes[0].stride >= f.width && planes[1].stride >= f.width
          && planes[0].length >= planes[0].stride * f.height
          && planes[1].length >= planes[1].stride * DivCeil2(f.height)
        case Yuyv => planes[0].stride >= 2 * f.width && planes[0].length >= planes[0].stride * f.height
        case Mjpeg => true)
    && (|planes| == 2 ==> (if planes[0].offset <= planes[1].offset
                           then planes[0].offset + planes[0].length <= planes[1].offset
                           else planes[1].offset + planes[1].length <= planes[0].offset))
    && used <= MAX_CAMERA_FRAME_BYTES
    && forall k :: 0 <= k < |planes| ==> planes[k].offset + planes[k].length <= used
  }

  function SharedPlane(p: CameraPlane): Option<PlaneLayout> { NewPlaneLayout(p.offset, p.length, p.stride) }

  /** The shared-memory plane table of the camera planes, if every entry fits its 32-bit fields. */
  function SharedPlanes(planes: seq<CameraPlane>): Option<seq<PlaneLayout>> {
    if forall k :: 0 <= k < |planes| ==> SharedPlane(planes[k]).Some?
    then Some(seq(|planes|, k requires 0 <= k < |planes| && SharedPlane(planes[k]).Some? => SharedPlane(planes[k]).value))
    else None
  }

  /** Does a sample of `used` bytes with these planes go all the way into a slot of the ring? */
  ghost predicate Publishable(config: RingConfig, planes: Option<seq<CameraPlane>>, used: nat) {
    && planes.Some? && CameraAccepts(config.format, planes.value, used)
    && var shared := SharedPlanes(planes.value);
       && shared.Some?
       && var f := config.format;
          var m := FrameMetadata(f.pixel, f.width, f.height, 0, 0, 0, 0, shared.value);
          ValidMetadata(m) && PayloadAccepted(config, m, Copier([], Some(used)))
  }

  ghost predicate EvenIfNv12(f: CameraFormat) { f.pixel == Nv12 ==> f.width % 2 == 0 && f.height % 2 == 0 }

  /**
    The two layers check the same thing: whatever the camera's own check lets through, the ring's check
    accepts of the converted planes, and on images the ring carries at all the two are equivalent.
   */
  lemma ChecksAgree(f: CameraFormat, planes: seq<CameraPlane>, used: nat)
    requires ValidFormat(f) && used <= MAX_CAMERA_FRAME_BYTES && SharedPlanes(planes).Some?
    ensures CameraAccepts(f, planes, used) ==>
            ValidatePlanes(f.pixel, f.width, f.height, SharedPlanes(planes).value, used)
    ensures EvenIfNv12(f) ==>
            (CameraAccepts(f, planes, used) <==>
             ValidatePlanes(f.pixel, f.width, f.height, SharedPlanes(planes).value, used))
  {
    var shared := SharedPlanes(planes).value;
    forall k | 0 <= k < |planes| ensures SharedPlane(planes[k]) == Some(shared[k]) && WellFormedPlane(shared[k]) {}
    PlanesAcceptedIff(f.pixel, f.width, f.height, shared, used);
    if f.pixel == Nv12 && |planes| == 2 {
      assert SharedPlane(planes[0]) == Some(shared[0]) && SharedPlane(planes[1]) == Some(shared[1]);
      MulMonotone(f.height / 2, DivCeil2(f.height), planes[1].stride);
    } else if |planes| == 1 {
      assert SharedPlane(planes[0]) == Some(shared[0]);
    }
  }

  lemma NoOverflow(f: CameraFormat, stride: nat)
    requires ValidFormat(f) && stride <= U32_MAX
    ensures stride * f.height <= U32_MAX * 2160 && stride * DivCeil2(f.height) <= U32_MAX * 1080
    ensures Nv12Bytes(stride, f.height) == Some(stride * f.height + stride * DivCeil2(f.height))
    ensures CheckedMul(stride, f.height) == Some(stride * f.height)
  {
    MulMonotone(f.height, 2160, stride);
    MulMonotone(DivCeil2(f.height), 1080, stride);
    MulMonotone(stride, U32_MAX, 2160);
    MulMonotone(stride, U32_MAX, 1080);
  }

  lemma Converts(planes: seq<CameraPlane>, shared: seq<PlaneLayout>)
    requires |planes| == |shared| && forall k :: 0 <= k < |planes| ==> SharedPlane(planes[k]) == Some(shared[k])
    ensures SharedPlanes(planes) == Some(shared)
  {
    assert SharedPlanes(planes).value == shared;
  }

  /** An NV12 sample long enough for its stride is publishable exactly when both dimensions are even and it fits a slot. */
  lemma Nv12PublishableIff(config: RingConfig, stride: nat, used: nat)
    requires Accepted(config) && config.format.pixel == Nv12
    requires config.format.width <= stride <= U32_MAX && used <= MAX_CAMERA_FRAME_BYTES
    requires stride * config.format.height + stride * DivCeil2(config.format.height) <= used
    ensures Publishable(config, SamplePlanes(config.format, stride, used), used) <==>
            EvenIfNv12(config.format) && used <= config.payloadCapacity
  {
    var f := config.format;
    AcceptedSizes(config);
    NoOverflow(f, stride);
    MulAtLeast(f.height, stride);
    MulAtLeast(DivCeil2(f.height), stride);
    var y := CameraPlane(0, stride * f.height, stride);
    var uv := CameraPlane(stride * f.height, stride * DivCeil2(f.height), stride);
    assert SamplePlanes(f, stride, used) == Some([y, uv]);
    var shared := [PlaneLayout(y.offset, y.length, stride), PlaneLayout(uv.offset, uv.length, stride)];
    Converts([y, uv], shared);
    if EvenIfNv12(f) {
      Nv12PlanesValidate(f, shared, stride, used);
    }
  }

  lemma Nv12PlanesValidate(f: CameraFormat, planes: seq<PlaneLayout>, stride: nat, used: nat)
    requires f.pixel == Nv12 && f.height % 2 == 0 && f.width <= stride <= U32_MAX
    requires |planes| == 2
    requires planes[0].offset == 0 && planes[0].length == stride * f.height && planes[0].stride == stride
    requires planes[1].offset == stride * f.height && planes[1].length == stride * DivCeil2(f.height) && planes[1].stride == stride
    requires stride * f.height + stride * DivCeil2(f.height) <= used <= MAX_CAMERA_FRAME_BYTES
    ensures ValidatePlanes(Nv12, f.width, f.height, planes, used)
    ensures ValidatePlanes(Nv12, f.width, f.height, planes, MAX_CAMERA_FRAME_BYTES)
  {
    assert DivCeil2(f.height) == f.height / 2;
    assert !NeighboursOverlap(SortedByOffset(Ranges(planes)));
    LongerPayloadStillAccepts(Nv12, f.width, f.height, planes, used, MAX_CAMERA_FRAME_BYTES);
  }

  /** A packed or compressed sample is publishable exactly when its stride is not zero and it fits a slot. */
  lemma PackedPublishableIff(config: RingConfig, stride: nat, used: nat)
    requires Accepted(config) && config.format.pixel != Nv12
    requires stride <= U32_MAX && 0 < used <= MAX_CAMERA_FRAME_BYTES
    requires config.format.pixel == Yuyv ==> stride >= 2 * config.format.width && stride * config.format.height <= used
    ensures Publishable(config, SamplePlanes(config.format, stride, used), used) <==> stride > 0 && used <= config.payloadCapacity
  {
    var f := config.format;
    AcceptedSizes(config);
    if stride > 0 {
      var p := CameraPlane(0, used, stride);
      assert SamplePlanes(f, stride, used) == Some([p]);
      var shared := [PlaneLayout(0, used, stride)];
      Converts([p], shared);
      assert !NeighboursOverlap(SortedByOffset(Ranges(shared)));
      assert ValidatePlanes(f.pixel, f.width, f.height, shared, used);
      LongerPayloadStillAccepts(f.pixel, f.width, f.height, shared, used, MAX_CAMERA_FRAME_BYTES);
    }
  }

  // ----- The adapters -----

  /**
    V4L2 bounds a sample by the format's worst case, which leaves no room for row padding: an
    accepted uncompressed sample has the tightest stride, and NV12 of odd height is never accepted.
   */
  lemma V4l2AcceptsOnlyTightRows(f: CameraFormat, stride: nat, mapped: nat, used: nat)
    requires ValidFormat(f) && stride <= U32_MAX && V4l2Accepts(f, stride, mapped, used)
    ensures f.pixel == Nv12 ==> stride == f.width && f.height % 2 == 0
    ensures f.pixel == Yuyv ==> stride == 2 * f.width
  {
    NoOverflow(f, stride);
    var w, h := f.width, f.height;
    match f.pixel
    case Nv12 =>
      assert WorstCaseFrameBytes(f).value == w * h * 3 / 2;
      assert stride * h + stride * DivCeil2(h) <= w * h * 3 / 2;
      TightNv12(stride, w, h);
    case Yuyv =>
      assert stride * h <= (2 * w as int) * h;
      MulCancel(stride, 2 * w as int, h);
    case Mjpeg =>
  }

  lemma TightNv12(stride: nat, w: nat, h: nat)
    requires h > 0 && w > 0 && stride >= w && stride * h + stride * DivCeil2(h) <= w * h * 3 / 2
    ensures stride == w && h % 2 == 0
  {
    var c := DivCeil2(h);
    var rows := 2 * h + 2 * c;
    assert stride * rows == 2 * (stride * h + stride * c);
    assert stride * rows <= w * (3 * h);
    MulMonotone(w, stride, rows);
    assert rows * w <= (3 * h) * w;
    MulCancel(rows, 3 * h, w);
    assert rows == 3 * h;
    MulCancel(stride, w, 3 * h);
  }

  /**
    Every V4L2 sample the adapter accepts for the negotiated format is published, except NV12 of
    odd width, which the ring's dimension rule refuses, and a compressed sample of stride zero.
   */
  lemma V4l2SamplePublishableIff(config: RingConfig, stride: nat, mapped: nat, used: nat)
    requires Accepted(config) && stride <= U32_MAX && V4l2Accepts(config.format, stride, mapped, used)
    ensures Publishable(config, SamplePlanes(config.format, stride, used), used) <==>
            (config.format.pixel == Nv12 ==> config.format.width % 2 == 0) && (config.format.pixel == Mjpeg ==> stride > 0)
  {
    var f := config.format;
    AcceptedSizes(config);
    NoOverflow(f, stride);
    V4l2AcceptsOnlyTightRows(f, stride, mapped, used);
    assert used <= config.payloadCapacity;
    if f.pixel == Nv12 { Nv12PublishableIff(config, stride, used); } else { PackedPublishableIff(config, stride, used); }
  }

  /** Every Media Foundation sample the adapter accepts is published exactly when it fits the slot and NV12 dimensions are even. */
  lemma MediaFoundationSamplePublishableIff(config: RingConfig, stride: nat, maximum: nat, used: nat)
    requires Accepted(config) && stride <= U32_MAX && MediaFoundationAccepts(config.format, stride, maximum, used)
    ensures Publishable(config, SamplePlanes(config.format, stride, used), used) <==>
            EvenIfNv12(config.format) && used <= config.payloadCapacity
  {
    AcceptedSizes(config);
    NoOverflow(config.format, stride);
    if config.format.pixel == Nv12 { Nv12PublishableIff(config, stride, used); } else { PackedPublishableIff(config, stride, used); }
  }

  /** A three by two NV12 sample passes both adapters and is still not publishable. */
  lemma OddNv12SampleIsRefused()
    ensures var config := RingConfig(CameraFormat(Nv12, 3, 2), 4, 9, 192, 960);
            && Accepted(config) && V4l2Accepts(config.format, 3, 9, 9) && MediaFoundationAccepts(config.format, 3, 9, 9)
            && !Publishable(config, SamplePlanes(config.format, 3, 9), 9)
  {
    V4l2SamplePublishableIff(RingConfig(CameraFormat(Nv12, 3, 2), 4, 9, 192, 960), 3, 9, 9);
  }

  /** A one-byte MJPEG sample of stride zero passes the V4L2 adapter and is not publishable, whatever the ring. */
  lemma StrideZeroMjpegIsRefused(config: RingConfig)
    requires Accepted(config) && config.format.pixel == Mjpeg
    ensures V4l2Accepts(config.format, 0, 1, 1) && !Publishable(config, SamplePlanes(config.format, 0, 1), 1)
  {
    AcceptedSizes(config);
    V4l2SamplePublishableIff(config, 0, 1, 1);
  }
}
