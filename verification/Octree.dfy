/** Keys of the COPC octree: 32-bit arithmetic against the tree of paths from the root. */
module Octree {
  import opened Basics

  newtype int32 = x: int | -0x8000_0000 <= x < 0x8000_0000

  /** Which of the eight children: bit 0 chooses in x, bit 1 in y, bit 2 in z. */
  type Direction = d: int32 | 0 <= d < 8

  datatype VoxelKey = VoxelKey(l: int32, x: int32, y: int32, z: int32)

  const ROOT: VoxelKey := VoxelKey(0, 0, 0, 0)

  /** `(v << 1) | bit` on a 32-bit two's complement integer: the top bit is lost,
      and the bit fills the zero that was shifted in. */
  function ShiftIn(v: int32, bit: int32): (r: int32)
    requires bit == 0 || bit == 1
  {
    var doubled := 2 * v as int;
    var wrapped: int32 :=
      if doubled < -0x8000_0000 then (doubled + 0x1_0000_0000) as int32
      else if doubled >= 0x8000_0000 then (doubled - 0x1_0000_0000) as int32
      else doubled as int32;
    wrapped + bit
  }

  /** `v >> 1`, which rounds down. */
  function ShiftOut(v: int32): (r: int32)
  {
    (v as int / 2) as int32
  }

  /** Both shifts on all 32-bit integers: modulo `2^32` to the left, rounding down to the right. */
  lemma ShiftsExactly(v: int32, bit: int32)
    requires bit == 0 || bit == 1
    ensures (2 * v as int + bit as int - ShiftIn(v, bit) as int) % 0x1_0000_0000 == 0
    ensures 2 * ShiftOut(v) as int <= v as int <= 2 * ShiftOut(v) as int + 1
  {
    var d := 2 * v as int + bit as int - ShiftIn(v, bit) as int;
    assert d == 0 || d == 0x1_0000_0000 || d == -0x1_0000_0000;
  }

  /** The child in a direction, or nothing if there is no such direction. */
  function Child(k: VoxelKey, direction: int32): (child: Option<VoxelKey>)
    requires k.l < 0x7FFF_FFFF
    ensures child.Some? <==> 0 <= direction < 8
  {
    if direction < 0 || direction >= 8 then None else
      Some(VoxelKey(k.l + 1, ShiftIn(k.x, direction % 2), ShiftIn(k.y, direction / 2 % 2), ShiftIn(k.z, direction / 4 % 2)))
  }

  /** The root is its own parent. */
  function Parent(k: VoxelKey): (parent: VoxelKey)
    requires k.l > -0x8000_0000
    ensures parent.l as int == Max(k.l as int - 1, 0)
  {
    VoxelKey(if k.l - 1 > 0 then k.l - 1 else 0, ShiftOut(k.x), ShiftOut(k.y), ShiftOut(k.z))
  }

  /** A coordinate that keeps its value when shifted left. */
  predicate Doubles(v: int32)
  {
    -0x4000_0000 <= v < 0x4000_0000
  }

  predicate HasExactChildren(k: VoxelKey)
  {
    k.l < 0x7FFF_FFFF && Doubles(k.x) && Doubles(k.y) && Doubles(k.z)
  }

  /** Over all 32-bit keys, `parent` undoes `child` exactly where no coordinate loses its top bit. */
  lemma ParentUndoesChild(k: VoxelKey, d: Direction)
    requires k.l < 0x7FFF_FFFF
    ensures Parent(Child(k, d).value) == k <==> k.l >= 0 && HasExactChildren(k)
  {
    forall v: int32, bit: int32 | bit == 0 || bit == 1
      ensures ShiftOut(ShiftIn(v, bit)) == v <==> Doubles(v)
    {
    }
  }

  function Pow2(n: nat): (p: nat)
    ensures p > 0
  {
    if n == 0 then 1 else 2 * Pow2(n - 1)
  }

  lemma {:induction false} Pow2Grows(m: nat, n: nat)
    requires m <= n
    ensures Pow2(m) <= Pow2(n)
    decreases n
  {
    if m == n {
    } else {
      Pow2Grows(m, n - 1);
    }
  }

  lemma Pow2Of31()
    ensures Pow2(31) == 0x8000_0000
  {
    assert Pow2(8) == 0x100;
    assert Pow2(16) == 0x1_0000;
    assert Pow2(24) == 0x100_0000;
  }

  /** The keys of the tree: level `l` has `2^l` of them in each coordinate. */
  predicate InTree(k: VoxelKey)
  {
    && 0 <= k.l <= 31
    && 0 <= k.x as int < Pow2(k.l as nat)
    && 0 <= k.y as int < Pow2(k.l as nat)
    && 0 <= k.z as int < Pow2(k.l as nat)
  }

  lemma TreeKeysHaveExactChildren(k: VoxelKey)
    requires InTree(k) && k.l < 31
    ensures HasExactChildren(k)
  {
    Pow2Of31();
    Pow2Grows(k.l as nat, 30);
  }

  /** Children of tree keys below level 31 are tree keys, and nothing wraps. */
  lemma ChildInTree(k: VoxelKey, d: Direction)
    requires InTree(k) && k.l < 31
    ensures InTree(Child(k, d).value) && Parent(Child(k, d).value) == k
  {
    TreeKeysHaveExactChildren(k);
    ParentUndoesChild(k, d);
  }

  /** The direction in which a key lies from its parent. */
  function DirectionOf(k: VoxelKey): (d: Direction)
  {
    (k.x as int % 2 + 2 * (k.y as int % 2) + 4 * (k.z as int % 2)) as int32
  }

  /** Shifting out the low bit and in again is lossless on every 32-bit integer. */
  lemma ShiftBack(v: int32)
    ensures Doubles(ShiftOut(v)) && ShiftIn(ShiftOut(v), (v as int % 2) as int32) == v
  {
  }

  lemma BitsOf(a: int, b: int, c: int)
    requires 0 <= a < 2 && 0 <= b < 2 && 0 <= c < 2
    ensures var d := a + 2 * b + 4 * c; d % 2 == a && d / 2 % 2 == b && d / 4 % 2 == c
  {
  }

  lemma SameBits(d: Direction, e: Direction)
    requires d % 2 == e % 2 && d / 2 % 2 == e / 2 % 2 && d / 4 % 2 == e / 4 % 2
    ensures d == e
  {
  }

  lemma ParentInTree(k: VoxelKey)
    requires InTree(k) && k.l > 0
    ensures InTree(Parent(k)) && Parent(k).l == k.l - 1
  {
    assert Pow2(k.l as nat) == 2 * Pow2(k.l as nat - 1);
  }

  /** Below the root, `child` undoes `parent`, whatever the coordinates. */
  lemma ChildOfParent(k: VoxelKey)
    requires k.l > 0
    ensures Child(Parent(k), DirectionOf(k)) == Some(k)
  {
    ShiftBack(k.x);
    ShiftBack(k.y);
    ShiftBack(k.z);
    BitsOf(k.x as int % 2, k.y as int % 2, k.z as int % 2);
  }

  lemma DirectionOfChild(k: VoxelKey, d: Direction)
    requires HasExactChildren(k)
    ensures DirectionOf(Child(k, d).value) == d
  {
  }

  /** `children()`: one key for each direction. */
  method Children(k: VoxelKey) returns (result: seq<VoxelKey>)
    requires k.l < 0x7FFF_FFFF
    ensures |result| == 8
    ensures forall d: Direction :: result[d] == Child(k, d).value
  {
    result := seq(8, _ => VoxelKey(0, 0, 0, 0));
    var i: int32 := 0;
    while i < 8
      invariant 0 <= i <= 8 && |result| == 8
      invariant forall d: Direction :: d < i ==> result[d] == Child(k, d).value
    {
      result := result[i := Child(k, i).value];
      i := i + 1;
    }
  }

  /** The children of a tree key are the tree keys one level down whose parent it is, each met once. */
  lemma ChildrenAreExactlyThose(k: VoxelKey, c: VoxelKey)
    requires InTree(k) && k.l < 31 && InTree(c)
    ensures (exists d: Direction :: Child(k, d) == Some(c)) <==> c.l == k.l + 1 && Parent(c) == k
    ensures forall d: Direction, e: Direction :: Child(k, d) == Child(k, e) ==> d == e
  {
    TreeKeysHaveExactChildren(k);
    forall d: Direction
      ensures Parent(Child(k, d).value) == k && DirectionOf(Child(k, d).value) == d
    {
      ParentUndoesChild(k, d);
      DirectionOfChild(k, d);
    }
    if c.l == k.l + 1 && Parent(c) == k {
      ChildOfParent(c);
      assert Child(k, DirectionOf(c)) == Some(c);
    }
  }

  // ----- Paths -----

  type Path = p: seq<Direction> | |p| <= 31

  /** Where a path from the root leads. */
  function KeyOf(path: Path): (k: VoxelKey)
    ensures InTree(k) && k.l as int == |path|
    decreases |path|
  {
    if path == [] then ROOT else
      var before := KeyOf(path[..|path| - 1]);
      ChildInTree(before, path[|path| - 1]);
      Child(before, path[|path| - 1]).value
  }

  /** The path that leads to a key. */
  function PathOf(k: VoxelKey): (path: Path)
    requires InTree(k)
    ensures |path| == k.l as int
    decreases k.l as int
  {
    if k.l == 0 then [] else
      ParentInTree(k);
      PathOf(Parent(k)) + [DirectionOf(k)]
  }

  /** Every tree key is reached by its path ... */
  lemma {:induction false} PathLeadsToKey(k: VoxelKey)
    requires InTree(k)
    ensures KeyOf(PathOf(k)) == k
    decreases k.l as int
  {
    if k.l == 0 {
      assert Pow2(0) == 1;
    } else {
      ParentInTree(k);
      ChildOfParent(k);
      PathLeadsToKey(Parent(k));
      assert PathOf(k)[..|PathOf(k)| - 1] == PathOf(Parent(k));
    }
  }

  /** ... and by no other: keys and paths of length at most 31 correspond one to one. */
  lemma {:induction false} KeyHasOnePath(path: Path)
    ensures PathOf(KeyOf(path)) == path
    decreases |path|
  {
    if path == [] {
    } else {
      var before, d := KeyOf(path[..|path| - 1]), path[|path| - 1];
      KeyHasOnePath(path[..|path| - 1]);
      ChildInTree(before, d);
      TreeKeysHaveExactChildren(before);
      DirectionOfChild(before, d);
      assert path == path[..|path| - 1] + [d];
    }
  }

  /** `parent` applied `n` times. */
  function Up(k: VoxelKey, n: nat): VoxelKey
    requires k.l >= 0
    decreases n
  {
    if n == 0 then k else Up(Parent(k), n - 1)
  }

  /** Going up shortens the path, and stays at the root once there. */
  lemma {:induction false} UpShortensPath(path: Path, n: nat)
    ensures Up(KeyOf(path), n) == KeyOf(path[..Max(|path| - n, 0)])
    decreases n
  {
    if n == 0 {
      assert path[..|path|] == path;
    } else if path == [] {
      assert Parent(ROOT) == ROOT;
      UpShortensPath(path, n - 1);
    } else {
      var shorter := path[..|path| - 1];
      ChildInTree(KeyOf(shorter), path[|path| - 1]);
      UpShortensPath(shorter, n - 1);
      assert shorter[..Max(|path| - n, 0)] == path[..Max(|path| - n, 0)];
    }
  }

  /** From any tree key, exactly `l` steps up lead to the root. */
  lemma LevelIsDistanceToRoot(k: VoxelKey, n: nat)
    requires InTree(k)
    ensures Up(k, n) == ROOT <==> n >= k.l as int
  {
    PathLeadsToKey(k);
    var path := PathOf(k);
    UpShortensPath(path, n);
    assert KeyOf(path[..Max(|path| - n, 0)]).l as int == Max(|path| - n, 0);
  }
}
