/** Machine integers, bytes and their little-endian decodings, shared by every component. */
module Basics {

  datatype Option<+T> = None | Some(value: T)

  newtype byte = x: int | 0 <= x < 0x100
  newtype uint32 = x: int | 0 <= x < 0x1_0000_0000
  newtype uint64 = x: int | 0 <= x < 0x1_0000_0000_0000_0000
  newtype int64 = x: int | -0x8000_0000_0000_0000 <= x < 0x8000_0000_0000_0000

  /** The bytes of a point as they are in a file. */
  type Record = seq<byte>

  /** The largest `std::streamoff`, and the largest `i64`. */
  const MAX_OFFSET: int := 0x7FFF_FFFF_FFFF_FFFF

  const U64_MAX: int := 0xFFFF_FFFF_FFFF_FFFF

  function Min(a: int, b: int): (m: int)
    ensures m <= a && m <= b && (m == a || m == b)
  {
    if a <= b then a else b
  }

  function Max(a: int, b: int): (m: int)
    ensures m >= a && m >= b && (m == a || m == b)
  {
    if a <= b then b else a
  }

  function Zeros(n: nat): (z: seq<byte>)
    ensures |z| == n && forall i :: 0 <= i < n ==> z[i] == 0
  {
    seq(n, _ => 0)
  }

  /** `bytes` are the lowest digits of `n`, lowest first: `to_le_bytes`, in two's complement if `n` is negative. */
  predicate Encodes(bytes: seq<byte>, n: int)
    decreases |bytes|
  {
    bytes == [] || (bytes[0] as int == n % 0x100 && Encodes(bytes[1..], n / 0x100))
  }

  function Pow256(k: nat): (p: nat)
    ensures p > 0
  {
    if k == 0 then 1 else 0x100 * Pow256(k - 1)
  }

  lemma Pow256Of8()
    ensures Pow256(4) == 0x1_0000_0000 && Pow256(8) == 0x1_0000_0000_0000_0000
  {
    assert Pow256(6) == 0x100 * 0x100 * Pow256(4);
    assert Pow256(8) == 0x100 * 0x100 * Pow256(6);
  }

  lemma LowestDigit(d: int, rest: int)
    requires 0 <= d < 0x100
    ensures (d + 0x100 * rest) % 0x100 == d && (d + 0x100 * rest) / 0x100 == rest
  {
  }

  /** The unsigned number that `bytes` encode. */
  function FromLe(bytes: seq<byte>): (n: nat)
    ensures n < Pow256(|bytes|) && Encodes(bytes, n)
    decreases |bytes|
  {
    if bytes == [] then 0 else
      var rest := FromLe(bytes[1..]);
      LowestDigit(bytes[0] as int, rest);
      bytes[0] as int + 0x100 * rest
  }

  /** `u32::from_le_bytes`. */
  function FromLe32(s: seq<byte>): (n: uint32)
    requires |s| == 4
    ensures Encodes(s, n as int)
  {
    assert Pow256(4) == 0x1_0000_0000;
    FromLe(s) as uint32
  }

  /** `u64::from_le_bytes`. */
  function FromLe64(s: seq<byte>): (n: uint64)
    requires |s| == 8
    ensures Encodes(s, n as int)
  {
    Pow256Of8();
    FromLe(s) as uint64
  }

  /** Two's complement: `i64::from_le_bytes` reads the same bits as `u64::from_le_bytes`. */
  function AsSigned(n: uint64): (i: int64)
    ensures i as int % 0x1_0000_0000_0000_0000 == n as int
  {
    if n as int <= MAX_OFFSET then n as int64 else (n as int - 0x1_0000_0000_0000_0000) as int64
  }

  /** Do the `width` bytes at `at` hold `n`? */
  predicate StoredAt(content: seq<byte>, at: int, width: nat, n: int)
  {
    0 <= at && at + width <= |content| && Encodes(content[at..at + width], n)
  }

  /** The little-endian 64-bit number stored at `at`. */
  function Le64At(content: seq<byte>, at: nat): (n: nat)
    requires at + 8 <= |content|
    ensures n <= U64_MAX && StoredAt(content, at, 8, n)
  {
    FromLe64(content[at..at + 8]) as nat
  }

  /** The little-endian 32-bit number stored at `at`. */
  function Le32At(content: seq<byte>, at: nat): (n: nat)
    requires at + 4 <= |content|
    ensures n < 0x1_0000_0000 && StoredAt(content, at, 4, n)
  {
    FromLe32(content[at..at + 4]) as nat
  }

  /** Byte by byte: where each digit of a number is. */
  lemma LittleEndian(s: seq<byte>, n: int)
    requires |s| == 4
    ensures Encodes(s, n) <==>
            && s[0] as int == n % 0x100
            && s[1] as int == n / 0x100 % 0x100
            && s[2] as int == n / 0x100 / 0x100 % 0x100
            && s[3] as int == n / 0x100 / 0x100 / 0x100 % 0x100
  {
    assert s[1..][1..] == s[2..] && s[2..][1..] == s[3..] && s[3..][1..] == [];
    assert Encodes(s[3..], n / 0x100 / 0x100 / 0x100) <==> s[3] as int == n / 0x100 / 0x100 / 0x100 % 0x100;
    assert Encodes(s[2..], n / 0x100 / 0x100) <==>
           s[2] as int == n / 0x100 / 0x100 % 0x100 && Encodes(s[3..], n / 0x100 / 0x100 / 0x100);
  }

  /** No two numbers of that width are encoded alike. */
  lemma {:induction false} EncodesOne(s: seq<byte>, n: int, m: int)
    requires Encodes(s, n) && Encodes(s, m) && 0 <= n < Pow256(|s|) && 0 <= m < Pow256(|s|)
    ensures n == m
    decreases |s|
  {
    if s == [] {
    } else {
      EncodesOne(s[1..], n / 0x100, m / 0x100);
    }
  }

  lemma {:induction false} EncodesModulo(s: seq<byte>, n: int)
    ensures Encodes(s, n) <==> Encodes(s, n + Pow256(|s|))
    decreases |s|
  {
    if s == [] {
    } else {
      EncodesModulo(s[1..], n / 0x100);
      assert (n + Pow256(|s|)) / 0x100 == n / 0x100 + Pow256(|s| - 1);
    }
  }

  lemma Decodes32(content: seq<byte>, at: nat, n: uint32)
    requires at + 4 <= |content|
    ensures StoredAt(content, at, 4, n as int) <==> Le32At(content, at) == n as int
  {
    Pow256Of8();
    if StoredAt(content, at, 4, n as int) {
      EncodesOne(content[at..at + 4], n as int, Le32At(content, at));
    }
  }

  lemma Decodes64(content: seq<byte>, at: nat, n: uint64)
    requires at + 8 <= |content|
    ensures StoredAt(content, at, 8, n as int) <==> Le64At(content, at) == n as int
  {
    Pow256Of8();
    if StoredAt(content, at, 8, n as int) {
      EncodesOne(content[at..at + 8], n as int, Le64At(content, at));
    }
  }

  lemma DecodesSigned(content: seq<byte>, at: nat, i: int64)
    requires at + 8 <= |content|
    ensures StoredAt(content, at, 8, i as int) <==> AsSigned(Le64At(content, at) as uint64) == i
  {
    var n := (i as int % 0x1_0000_0000_0000_0000) as uint64;
    Pow256Of8();
    EncodesModulo(content[at..at + 8], i as int);
    Decodes64(content, at, n);
  }

  function SumOf(ns: seq<nat>): (total: nat)
  {
    if ns == [] then 0 else ns[0] + SumOf(ns[1..])
  }

  function Flatten<T>(parts: seq<seq<T>>): (whole: seq<T>)
  {
    if parts == [] then [] else parts[0] + Flatten(parts[1..])
  }

  lemma ConcatAssociative<T>(a: seq<T>, b: seq<T>, c: seq<T>)
    ensures (a + b) + c == a + (b + c)
  {
  }

  lemma {:induction false} FlattenConcat<T>(a: seq<seq<T>>, b: seq<seq<T>>)
    ensures Flatten(a + b) == Flatten(a) + Flatten(b)
  {
    if a == [] {
      assert a + b == b;
    } else {
      var tail, whole := a[1..], a + b;
      FlattenConcat(tail, b);
      ConcatAssociative(a[0], Flatten(tail), Flatten(b));
      assert whole[0] == a[0] && whole[1..] == tail + b;
      assert Flatten(whole) == whole[0] + Flatten(whole[1..]);
    }
  }

  lemma FlattenAppend<T>(parts: seq<seq<T>>, last: seq<T>)
    ensures Flatten(parts + [last]) == Flatten(parts) + last
  {
    FlattenConcat(parts, [last]);
    assert Flatten([last]) == last + Flatten<T>([]);
  }

  ghost predicate AllOfLength<T>(parts: seq<seq<T>>, len: nat)
  {
    forall i :: 0 <= i < |parts| ==> |parts[i]| == len
  }

  lemma {:induction false} FlattenLength<T>(parts: seq<seq<T>>, len: nat)
    requires AllOfLength(parts, len)
    ensures |Flatten(parts)| == |parts| * len
  {
    if parts == [] {
    } else {
      FlattenLength(parts[1..], len);
      assert |parts| * len == len + (|parts| - 1) * len;
    }
  }

  lemma WindowInRange(i: nat, n: nat, len: nat)
    requires i < n
    ensures i * len + len == (i + 1) * len <= n * len
  {
    assert n * len == (i + 1) * len + (n - (i + 1)) * len;
  }

  /** Parts of one length stand in their whole as windows of that length. */
  lemma WindowOfFlatten<T>(parts: seq<seq<T>>, len: nat, i: nat)
    requires AllOfLength(parts, len) && i < |parts|
    ensures i * len + len <= |Flatten(parts)| && Flatten(parts)[i * len..i * len + len] == parts[i]
  {
    var before, after := parts[..i], parts[i + 1..];
    assert parts == (before + [parts[i]]) + after;
    FlattenConcat(before + [parts[i]], after);
    FlattenAppend(before, parts[i]);
    FlattenLength(before, len);
  }
}
