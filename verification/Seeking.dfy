/**
 Seeking across the language boundary: the Rust `SeekFrom` is translated to an
 `i64` offset and an origin, and the C++ adapter resolves those against the
 current position and the end of the stream.
 */
module Seeking {
  import opened Basics

  datatype Origin = FromStart | FromCurrent | FromEnd

  /** `std::io::SeekFrom`. */
  datatype SeekFrom = Start(n: uint64) | Current(d: int64) | End(d: int64)

  /** Adds the offset to the position that the origin stands for, unless the sum
      cannot be a position. All of it is done in `int64`, where each operation is
      checked to stay in range: the test comes before the sum it guards. */
  function SeekTarget(offset: int64, origin: Origin, current: int64, end: int64): (target: Option<int64>)
    requires 0 <= current && 0 <= end
  {
    var base: int64 := match origin
      case FromCurrent => current
      case FromEnd => end
      case FromStart => 0;
    var max: int64 := 0x7FFF_FFFF_FFFF_FFFF;
    if (offset > 0 && base > max - offset) || base + offset < 0 then None else Some(base + offset)
  }

  /** What `seek_with` passes to the callback, or nothing if it fails before calling it. */
  function SeekRequest(to: SeekFrom): (request: Option<(int64, Origin)>)
  {
    match to
    case Start(n) => if n as int <= MAX_OFFSET then Some((n as int64, FromStart)) else None
    case Current(d) => Some((d, FromCurrent))
    case End(d) => Some((d, FromEnd))
  }

  /** The position a seek asks for, in unbounded arithmetic. */
  function ExactTarget(to: SeekFrom, current: nat, end: nat): (target: int)
  {
    match to
    case Start(n) => n as int
    case Current(d) => current + d as int
    case End(d) => end + d as int
  }

  /** A position the adapters can represent. */
  predicate Representable(target: int)
  {
    0 <= target <= MAX_OFFSET
  }

  /** The two halves of the translation together: a seek resolves to its exact
      mathematical target when that is representable and is refused otherwise. */
  function Resolve(to: SeekFrom, current: int64, end: int64): (target: Option<int64>)
    requires 0 <= current && 0 <= end
    ensures target.Some? <==> Representable(ExactTarget(to, current as nat, end as nat))
    ensures target.Some? ==> target.value as int == ExactTarget(to, current as nat, end as nat)
  {
    match SeekRequest(to)
    case None => None
    case Some((offset, origin)) => SeekTarget(offset, origin, current, end)
  }
}
