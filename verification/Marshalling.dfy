/**
 Points across the C interface. A point's extra bytes travel apart from its
 other fields: one after another, each as long as it is, into Rust; in windows
 of one fixed length back to C++.
 */
module Marshalling {
  import opened Basics

  newtype uint16 = x: int | 0 <= x < 0x1_0000

  datatype Color = Color(red: uint16, green: uint16, blue: uint16)

  datatype Waveform = Waveform(descriptorIndex: byte, byteOffset: uint64, packetSize: uint32,
                               location: real, xT: real, yT: real, zT: real)

  /** The fields that every form of a point has in the same shape. */
  datatype Common = Common(x: real, y: real, z: real, intensity: uint16, returnNumber: byte, numberOfReturns: byte,
                           isEdgeOfFlightLine: bool, isSynthetic: bool, isKeyPoint: bool, isWithheld: bool,
                           isOverlap: bool, scannerChannel: byte, scanAngle: real, userData: byte,
                           pointSourceId: uint16)

  /** The fields that a format may lack. */
  datatype Optional = Optional(gpsTime: Option<real>, color: Option<Color>, waveform: Option<Waveform>, nir: Option<uint16>)

  /** `las::Point` in C++, whose enums can hold any byte. */
  datatype CppPoint = CppPoint(common: Common, scanDirection: byte, classification: byte,
                               optional: Optional, extraBytes: seq<byte>)

  datatype ScanDirection = RightToLeft | LeftToRight

  /** 12 (overlap) is not a classification. */
  type Classification = c: byte | c != 12

  /** `las::Point` in Rust. */
  datatype RustPoint = RustPoint(common: Common, scanDirection: ScanDirection, classification: Classification,
                                 optional: Optional, extraBytes: seq<byte>)

  /** `LasrsPoint`: every optional field is a flag and a value. */
  datatype CPoint = CPoint(common: Common, scanDirection: byte, classification: byte,
                           hasGpsTime: bool, gpsTime: real, hasColor: bool, color: Color,
                           hasWaveform: bool, waveform: Waveform, hasNir: bool, nir: uint16, extraBytesLen: nat)

  const NO_COLOR: Color := Color(0, 0, 0)
  const NO_WAVEFORM: Waveform := Waveform(0, 0, 0, 0.0, 0.0, 0.0, 0.0)

  function ValueOr<T>(o: Option<T>, default: T): T
  {
    if o.Some? then o.value else default
  }

  function OptionOf<T>(has: bool, value: T): Option<T>
  {
    if has then Some(value) else None
  }

  function CFields(common: Common, scanDirection: byte, classification: byte, o: Optional, extraBytesLen: nat): (c: CPoint)
    ensures c.common == common && c.scanDirection == scanDirection && c.classification == classification
    ensures c.extraBytesLen == extraBytesLen
    ensures if o.gpsTime.Some? then c.hasGpsTime && c.gpsTime == o.gpsTime.value else !c.hasGpsTime
    ensures if o.color.Some? then c.hasColor && c.color == o.color.value else !c.hasColor
    ensures if o.waveform.Some? then c.hasWaveform && c.waveform == o.waveform.value else !c.hasWaveform
    ensures if o.nir.Some? then c.hasNir && c.nir == o.nir.value else !c.hasNir
  {
    CPoint(common, scanDirection, classification,
           o.gpsTime.Some?, ValueOr(o.gpsTime, 0.0), o.color.Some?, ValueOr(o.color, NO_COLOR),
           o.waveform.Some?, ValueOr(o.waveform, NO_WAVEFORM), o.nir.Some?, ValueOr(o.nir, 0), extraBytesLen)
  }

  function OptionalFields(c: CPoint): Optional
  {
    Optional(OptionOf(c.hasGpsTime, c.gpsTime), OptionOf(c.hasColor, c.color),
             OptionOf(c.hasWaveform, c.waveform), OptionOf(c.hasNir, c.nir))
  }

  // ----- One point -----

  /** C++ `to_c`. */
  function ToC(p: CppPoint): CPoint
  {
    CFields(p.common, p.scanDirection, p.classification, p.optional, |p.extraBytes|)
  }

  /** C++ `from_c`. */
  function FromC(c: CPoint, extraBytes: seq<byte>): CppPoint
  {
    CppPoint(c.common, c.scanDirection, c.classification, OptionalFields(c), extraBytes)
  }

  /** Rust `LasrsPoint::from`. */
  function FromPoint(p: RustPoint): CPoint
  {
    CFields(p.common, if p.scanDirection.RightToLeft? then 0 else 1, p.classification, p.optional, |p.extraBytes|)
  }

  datatype PointResult = Ok(point: RustPoint) | InvalidScanDirection(n: byte) | InvalidClassification

  /** Rust `to_point`. */
  function ToPoint(c: CPoint, extraBytes: seq<byte>): (r: PointResult)
  {
    if c.scanDirection > 1 then InvalidScanDirection(c.scanDirection)
    else if c.classification == 12 then InvalidClassification
    else Ok(RustPoint(c.common, if c.scanDirection == 0 then RightToLeft else LeftToRight, c.classification,
                      OptionalFields(c), extraBytes))
  }

  /** The points that las-rs takes. */
  predicate Acceptable(p: CppPoint)
  {
    p.scanDirection <= 1 && p.classification != 12
  }

  /** The C++ point that a Rust point comes back as. */
  function Returned(p: RustPoint): CppPoint
  {
    FromC(FromPoint(p), p.extraBytes)
  }

  /** A point goes into Rust exactly if its scan direction is 0 or 1 and its
      classification is not 12, field by field, and comes back as it was. */
  lemma PointRoundTrip(p: CppPoint)
    ensures ToC(p).common == p.common && ToC(p).scanDirection == p.scanDirection && ToC(p).classification == p.classification
    ensures ToPoint(ToC(p), p.extraBytes).Ok? <==> p.scanDirection <= 1 && p.classification != 12
    ensures Acceptable(p) <==> p.scanDirection <= 1 && p.classification != 12
    ensures p.scanDirection > 1 ==> ToPoint(ToC(p), p.extraBytes) == InvalidScanDirection(p.scanDirection)
    ensures p.scanDirection <= 1 && p.classification == 12 ==> ToPoint(ToC(p), p.extraBytes) == InvalidClassification
    ensures Acceptable(p) ==>
              var q := ToPoint(ToC(p), p.extraBytes).point;
              && q.common == p.common && q.optional == p.optional && q.extraBytes == p.extraBytes
              && q.classification == p.classification
              && q.scanDirection == if p.scanDirection == 0 then RightToLeft else LeftToRight
    ensures Acceptable(p) ==> Returned(ToPoint(ToC(p), p.extraBytes).point) == p
  {
  }

  /** What a Rust point comes back as, field by field, with whatever extra bytes. */
  lemma FieldsBack(p: RustPoint, extraBytes: seq<byte>)
    ensures FromPoint(p).common == p.common && FromPoint(p).classification == p.classification
    ensures var q := FromC(FromPoint(p), extraBytes);
            && q.common == p.common && q.optional == p.optional && q.extraBytes == extraBytes
            && q.classification == p.classification
            && q.scanDirection == if p.scanDirection.RightToLeft? then 0 else 1
  {
  }

  /** Coming back and going in again restores every Rust point. */
  lemma RustPointRoundTrip(p: RustPoint)
    ensures Acceptable(Returned(p)) && ToPoint(ToC(Returned(p)), Returned(p).extraBytes) == Ok(p)
  {
  }

  // ----- Into Rust: extra bytes one after another -----

  function CppExtraBytes(points: seq<CppPoint>): (parts: seq<seq<byte>>)
    ensures |parts| == |points|
    ensures forall i :: 0 <= i < |points| ==> parts[i] == points[i].extraBytes
  {
    seq(|points|, i requires 0 <= i < |points| => points[i].extraBytes)
  }

  function CPointsOf(points: seq<CppPoint>): (c: seq<CPoint>)
    ensures |c| == |points|
    ensures forall i :: 0 <= i < |points| ==> c[i] == ToC(points[i])
  {
    seq(|points|, i requires 0 <= i < |points| => ToC(points[i]))
  }

  /** C++ `to_c` for a list: `PointsForC`. */
  method PointsToC(points: seq<CppPoint>) returns (cPoints: seq<CPoint>, extraBytes: seq<byte>)
    ensures cPoints == CPointsOf(points)
    ensures extraBytes == Flatten(CppExtraBytes(points))
  {
    cPoints, extraBytes := [], [];
    for i := 0 to |points|
      invariant cPoints == CPointsOf(points[..i])
      invariant extraBytes == Flatten(CppExtraBytes(points[..i]))
    {
      assert CppExtraBytes(points[..i + 1]) == CppExtraBytes(points[..i]) + [points[i].extraBytes];
      FlattenAppend(CppExtraBytes(points[..i]), points[i].extraBytes);
      cPoints := cPoints + [ToC(points[i])];
      extraBytes := extraBytes + points[i].extraBytes;
    }
    assert points[..|points|] == points;
  }

  function Lengths(cPoints: seq<CPoint>): (lens: seq<nat>)
    ensures |lens| == |cPoints|
    ensures forall i :: 0 <= i < |cPoints| ==> lens[i] == cPoints[i].extraBytesLen
  {
    seq(|cPoints|, i requires 0 <= i < |cPoints| => cPoints[i].extraBytesLen)
  }

  /** Cuts `whole` into parts of the given lengths. */
  function Cut(whole: seq<byte>, lens: seq<nat>): (parts: seq<seq<byte>>)
    requires |whole| == SumOf(lens)
    ensures |parts| == |lens|
  {
    if lens == [] then [] else [whole[..lens[0]]] + Cut(whole[lens[0]..], lens[1..])
  }

  datatype PointsResult = AllOk(points: seq<RustPoint>) | Failed(error: PointResult)

  /** What converting point by point gives: the first error, or all the points. */
  function ToPoints(cPoints: seq<CPoint>, parts: seq<seq<byte>>): (r: PointsResult)
    requires |parts| == |cPoints|
    decreases |cPoints|
  {
    if cPoints == [] then AllOk([]) else
      var first := ToPoint(cPoints[0], parts[0]);
      if !first.Ok? then Failed(first) else
        match ToPoints(cPoints[1..], parts[1..])
        case AllOk(rest) => AllOk([first.point] + rest)
        case Failed(error) => Failed(error)
  }

  /** Puts points already converted before the result for the rest. */
  function Prepend(done: seq<RustPoint>, r: PointsResult): PointsResult
  {
    if r.AllOk? then AllOk(done + r.points) else r
  }

  /** Rust `points_from_ffi`: every split is in range, and success consumes the bytes exactly. */
  method PointsFromFfi(cPoints: seq<CPoint>, extraBytes: seq<byte>) returns (r: PointsResult, unused: seq<byte>)
    requires |extraBytes| == SumOf(Lengths(cPoints))
    ensures r == ToPoints(cPoints, Cut(extraBytes, Lengths(cPoints)))
    ensures r.AllOk? ==> unused == []
  {
    ghost var parts := Cut(extraBytes, Lengths(cPoints));
    var points: seq<RustPoint> := [];
    var extra := extraBytes;
    var i := 0;
    assert cPoints[0..] == cPoints && parts[0..] == parts;
    while i < |cPoints|
      invariant 0 <= i <= |cPoints|
      invariant |extra| == SumOf(Lengths(cPoints[i..]))
      invariant parts[i..] == Cut(extra, Lengths(cPoints[i..]))
      invariant ToPoints(cPoints, parts) == Prepend(points, ToPoints(cPoints[i..], parts[i..]))
    {
      ghost var rest := cPoints[i..];
      assert rest[1..] == cPoints[i + 1..] && parts[i..][1..] == parts[i + 1..];
      assert Lengths(rest)[1..] == Lengths(rest[1..]);
      var mine := extra[..cPoints[i].extraBytesLen];
      extra := extra[cPoints[i].extraBytesLen..];
      var point := ToPoint(cPoints[i], mine);
      if !point.Ok? {
        return Failed(point), extra;
      }
      points, i := points + [point.point], i + 1;
    }
    return AllOk(points), extra;
  }

  lemma {:induction false} CutUndoesFlatten(parts: seq<seq<byte>>, lens: seq<nat>)
    requires |lens| == |parts| && forall i :: 0 <= i < |parts| ==> lens[i] == |parts[i]|
    ensures |Flatten(parts)| == SumOf(lens) && Cut(Flatten(parts), lens) == parts
    decreases |parts|
  {
    if parts == [] {
    } else {
      CutUndoesFlatten(parts[1..], lens[1..]);
      assert Flatten(parts)[..lens[0]] == parts[0] && Flatten(parts)[lens[0]..] == Flatten(parts[1..]);
    }
  }

  /** Point `i` is the first one that las-rs does not take. */
  ghost predicate FirstRejected(points: seq<CppPoint>, i: nat)
    requires i < |points|
  {
    !Acceptable(points[i]) && forall j :: 0 <= j < i ==> Acceptable(points[j])
  }

  lemma {:induction false} ToPointsPointwise(points: seq<CppPoint>)
    ensures var r := ToPoints(CPointsOf(points), CppExtraBytes(points));
            && (r.AllOk? <==> forall p :: p in points ==> Acceptable(p))
            && (r.AllOk? ==> |r.points| == |points|
                             && forall i :: 0 <= i < |points| ==> ToPoint(ToC(points[i]), points[i].extraBytes) == Ok(r.points[i]))
    decreases |points|
  {
    if points == [] {
    } else {
      ToPointsPointwise(points[1..]);
      assert CPointsOf(points)[1..] == CPointsOf(points[1..]);
      assert CppExtraBytes(points)[1..] == CppExtraBytes(points[1..]);
      PointRoundTrip(points[0]);
      assert points == [points[0]] + points[1..];
    }
  }

  /** A list is refused for its first point that las-rs does not take. */
  lemma {:induction false} RefusedForFirst(points: seq<CppPoint>) returns (i: nat)
    requires ToPoints(CPointsOf(points), CppExtraBytes(points)).Failed?
    ensures i < |points| && FirstRejected(points, i)
    ensures ToPoints(CPointsOf(points), CppExtraBytes(points)).error ==
            if points[i].scanDirection > 1 then InvalidScanDirection(points[i].scanDirection) else InvalidClassification
    decreases |points|
  {
    PointRoundTrip(points[0]);
    if !Acceptable(points[0]) {
      i := 0;
    } else {
      assert CPointsOf(points)[1..] == CPointsOf(points[1..]);
      assert CppExtraBytes(points)[1..] == CppExtraBytes(points[1..]);
      var later := RefusedForFirst(points[1..]);
      i := later + 1;
      assert forall j :: 0 < j < i ==> points[j] == points[1..][j - 1];
    }
  }

  /** A list of points goes into Rust exactly when all of them are acceptable,
      and the points that arrive there are the ones that come back as they were. */
  method IntoRust(points: seq<CppPoint>) returns (r: PointsResult)
    ensures r.AllOk? <==> forall p :: p in points ==> Acceptable(p)
    ensures r.AllOk? ==> |r.points| == |points|
                         && forall i :: 0 <= i < |points| ==> Returned(r.points[i]) == points[i]
    ensures r.AllOk? ==>
              forall i :: 0 <= i < |points| ==>
                && r.points[i].common == points[i].common && r.points[i].optional == points[i].optional
                && r.points[i].extraBytes == points[i].extraBytes
                && r.points[i].classification == points[i].classification
                && r.points[i].scanDirection == if points[i].scanDirection == 0 then RightToLeft else LeftToRight
    ensures r.Failed? ==>
              exists i :: 0 <= i < |points| && FirstRejected(points, i)
                && r.error == if points[i].scanDirection > 1 then InvalidScanDirection(points[i].scanDirection)
                              else InvalidClassification
  {
    var cPoints, extraBytes := PointsToC(points);
    assert forall i :: 0 <= i < |points| ==> Lengths(cPoints)[i] == |CppExtraBytes(points)[i]|;
    CutUndoesFlatten(CppExtraBytes(points), Lengths(cPoints));
    var unused;
    r, unused := PointsFromFfi(cPoints, extraBytes);
    ToPointsPointwise(points);
    if r.Failed? {
      ghost var first := RefusedForFirst(points);
    }
    forall i | 0 <= i < |points| {
      PointRoundTrip(points[i]);
    }
  }

  // ----- Back to C++: windows of one length -----

  function RustExtraBytes(points: seq<RustPoint>): (parts: seq<seq<byte>>)
    ensures |parts| == |points|
    ensures forall i :: 0 <= i < |points| ==> parts[i] == points[i].extraBytes
  {
    seq(|points|, i requires 0 <= i < |points| => points[i].extraBytes)
  }

  function ReturnedAll(points: seq<RustPoint>): (returned: seq<CppPoint>)
    ensures |returned| == |points|
    ensures forall i :: 0 <= i < |points| ==> returned[i] == Returned(points[i])
  {
    seq(|points|, i requires 0 <= i < |points| => Returned(points[i]))
  }

  /** `copy_from_slice` into the window at `at`. */
  method CopyInto(slab: array<byte>, at: nat, bytes: seq<byte>)
    requires at + |bytes| <= slab.Length
    modifies slab
    ensures slab[..at + |bytes|] == old(slab[..at]) + bytes
    ensures slab[at + |bytes|..] == old(slab[at + |bytes|..])
  {
    forall k | 0 <= k < |bytes| {
      slab[at + k] := bytes[k];
    }
  }

  /** Rust `lasrs_point_data_points`: fails, as a panic caught at the boundary,
      if a point's extra bytes reach past the end of the slab. When all have the
      format's length, the windows are filled one after another. */
  method PointsOut(points: seq<RustPoint>, extraLen: nat, out: array<CPoint>, slab: array<byte>) returns (ok: bool)
    requires out.Length == |points| && slab.Length == |points| * extraLen
    modifies out, slab
    ensures ok ==> forall i :: 0 <= i < |points| ==> out[i] == FromPoint(points[i])
    ensures AllOfLength(RustExtraBytes(points), extraLen) ==> ok && slab[..] == Flatten(RustExtraBytes(points))
  {
    ghost var parts := RustExtraBytes(points);
    ghost var regular := AllOfLength(parts, extraLen);
    var i := 0;
    while i < |points|
      invariant 0 <= i <= |points| && 0 <= i * extraLen <= slab.Length
      invariant forall k :: 0 <= k < i ==> out[k] == FromPoint(points[k])
      invariant regular ==> slab[..i * extraLen] == Flatten(parts[..i])
    {
      out[i] := FromPoint(points[i]);
      var extra := points[i].extraBytes;
      var at := i * extraLen;
      WindowInRange(i, |points|, extraLen);
      FlattenAppend(parts[..i], parts[i]);
      assert parts[..i + 1] == parts[..i] + [parts[i]];
      if at + |extra| > slab.Length {
        return false;
      }
      CopyInto(slab, at, extra);
      i := i + 1;
    }
    assert parts[..i] == parts;
    return true;
  }

  /** The slab is put together from parts that have the length of its windows. */
  ghost predicate Regular(slab: seq<byte>, parts: seq<seq<byte>>, len: nat)
  {
    AllOfLength(parts, len) && slab == Flatten(parts)
  }

  /** `subspan`: window `i` of a slab of `n` windows. */
  method Window(slab: seq<byte>, n: nat, i: nat, len: nat, ghost parts: seq<seq<byte>>) returns (window: seq<byte>)
    requires |slab| == n * len && i < n == |parts|
    ensures |window| == len && (Regular(slab, parts, len) ==> window == parts[i])
  {
    WindowInRange(i, n, len);
    if Regular(slab, parts, len) {
      WindowOfFlatten(parts, len, i);
    }
    var at := i * len;
    window := slab[at..at + len];
  }

  /** The loop of C++ `PointData::points`: slices the slab into windows, which are
      the parts it was put together from if those have the window's length. */
  method SliceBack(cPoints: seq<CPoint>, slab: seq<byte>, extraLen: nat, ghost parts: seq<seq<byte>>)
    returns (back: seq<CppPoint>)
    requires |slab| == |cPoints| * extraLen && |parts| == |cPoints|
    ensures |back| == |cPoints|
    ensures forall k :: 0 <= k < |back| ==> |back[k].extraBytes| == extraLen
    ensures forall k :: 0 <= k < |back| ==> back[k] == FromC(cPoints[k], back[k].extraBytes)
    ensures Regular(slab, parts, extraLen) ==> forall k :: 0 <= k < |back| ==> back[k] == FromC(cPoints[k], parts[k])
  {
    ghost var regular := Regular(slab, parts, extraLen);
    back := [];
    var i := 0;
    while i < |cPoints|
      invariant 0 <= i <= |cPoints| && |back| == i
      invariant forall k :: 0 <= k < i ==> |back[k].extraBytes| == extraLen
      invariant forall k :: 0 <= k < i ==> back[k] == FromC(cPoints[k], back[k].extraBytes)
      invariant regular ==> forall k :: 0 <= k < i ==> back[k] == FromC(cPoints[k], parts[k])
    {
      var window := Window(slab, |cPoints|, i, extraLen, parts);
      back := back + [FromC(cPoints[i], window)];
      i := i + 1;
    }
  }

  const NO_POINT: CPoint :=
    CFields(Common(0.0, 0.0, 0.0, 0, 0, 0, false, false, false, false, false, 0, 0.0, 0, 0),
            0, 0, Optional(None, None, None, None), 0)

  /** Field by field, the points are those, each with extra bytes of length `extraLen`. */
  ghost predicate CameBack(points: seq<RustPoint>, back: seq<CppPoint>, extraLen: nat)
  {
    && |back| == |points|
    && forall i :: 0 <= i < |points| ==>
         && back[i].common == points[i].common && back[i].optional == points[i].optional
         && back[i].classification == points[i].classification
         && back[i].scanDirection == (if points[i].scanDirection.RightToLeft? then 0 else 1)
         && |back[i].extraBytes| == extraLen
  }

  /** C++ `PointData::points`: gives the same points back exactly when all their
      extra bytes have the format's length. */
  method PointsBack(points: seq<RustPoint>, extraLen: nat) returns (result: Option<seq<CppPoint>>)
    ensures result == Some(ReturnedAll(points)) <==> AllOfLength(RustExtraBytes(points), extraLen)
    ensures result.Some? ==> CameBack(points, result.value, extraLen)
  {
    ghost var parts := RustExtraBytes(points);
    var cPoints := new CPoint[|points|](_ => NO_POINT);
    var slab := new byte[|points| * extraLen](_ => 0);
    var ok := PointsOut(points, extraLen, cPoints, slab);
    if !ok {
      return None;
    }
    var back := SliceBack(cPoints[..], slab[..], extraLen, parts);
    assert back == ReturnedAll(points) ==> forall k :: 0 <= k < |parts| ==> parts[k] == back[k].extraBytes;
    if AllOfLength(parts, extraLen) {
      assert back == ReturnedAll(points);
    }
    return Some(back);
  }

  lemma ReturnedExtraBytes(points: seq<RustPoint>)
    ensures CppExtraBytes(ReturnedAll(points)) == RustExtraBytes(points)
  {
  }

  /** Both directions lay the extra bytes out alike: the slab that is filled on the
      way back equals the buffer that `PointsForC` builds from the points that come back. */
  method SlabIsConcatenation(points: seq<RustPoint>, extraLen: nat) returns (ok: bool, slab: seq<byte>, extraBytes: seq<byte>)
    ensures |slab| == |points| * extraLen && extraBytes == Flatten(RustExtraBytes(points))
    ensures AllOfLength(RustExtraBytes(points), extraLen) ==> ok && slab == extraBytes
  {
    var out := new CPoint[|points|](_ => NO_POINT);
    var buffer := new byte[|points| * extraLen](_ => 0);
    ok := PointsOut(points, extraLen, out, buffer);
    slab := buffer[..];
    var cPoints;
    cPoints, extraBytes := PointsToC(ReturnedAll(points));
    ReturnedExtraBytes(points);
  }

  /** Into Rust and back: points that las-rs takes, with extra bytes of the
      format's length, come back as they were. */
  method ThereAndBack(points: seq<CppPoint>, extraLen: nat) returns (result: Option<seq<CppPoint>>)
    ensures result == Some(points) <==>
            (forall p :: p in points ==> Acceptable(p)) && AllOfLength(CppExtraBytes(points), extraLen)
  {
    var r := IntoRust(points);
    if r.Failed? {
      return None;
    }
    result := PointsBack(r.points, extraLen);
    ReturnedExtraBytes(r.points);
    assert ReturnedAll(r.points) == points;
  }
}
