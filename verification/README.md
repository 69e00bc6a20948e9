# A verified model of lasrs-cpp

lasrs-cpp wraps the LAS/LAZ library las-rs for C++. The codec is las-rs's; what
this repository decides itself is how streams, sizes, points, octree keys and
owned handles cross between the two languages. This project models those parts
in Dafny 4.11 and proves what they promise. `dafny verify dfyconfig.toml`
checks all of it.

| modules | part of the system |
|---|---|
| `Basics` | machine integers, little-endian numbers, concatenation |
| `Seeking`, `StreamBuffers`, `InputStreams`, `InputRuns`, `OutputStreams`, `OutputRuns` | the adapters that make a `std::streambuf` behave like a file |
| `Limits` | the checks of declared sizes before las-rs allocates from them |
| `PointReading` | reading points in batches, and sessions of a reader |
| `Octree`, `Boxes` | COPC keys, their boxes, growing and intersecting bounds |
| `Marshalling` | points and their extra bytes across the C interface |
| `Ledgers`, `UniquePtrs`, `Ownership`, `Programs`, `Holders` | who owns which handle and which adapter, over whole programs |
| `Benchmarking` | the comparison of files and the LASzip writer of the benchmark program |

## How it is modelled

- **Streams.** `StreamBuffer` is a byte buffer with a cursor that cannot be
  positioned past its end and may fill up. `InputStream` and `OutputStream`
  keep the fields of the C++ classes. Each callback is proved against a file of
  the bytes from the adapter's start on; the run lemmas then compare those with
  an ordinary file and with a sparse file. Positions inside the adapters are
  `int64`, so no intermediate result overflows. The Rust side is unbuffered, as
  for `Header(std::istream &)`.
- **Sizes.** The checks read through `InputStream`. Parsing of the raw header
  belongs to las-rs; any consumer of the stream may stand in for it, choosing
  each operation from what it has seen so far. All conversions between signed
  and unsigned numbers are range-checked newtype conversions.
- **Points.** The foreign `fill_points(n)` is assumed to deliver the next `k`
  records and to leave exactly those in its target, for any `1 <= k <=
  min(n, remaining)`, with `k = 0` only if nothing was asked for or is left. The
  comparison in the benchmark program assumes `k = min(n, remaining)`. `f32` and
  `f64` are reals.
- **Octree.** Keys are 32-bit integers with the wrap-around of `<<` written out;
  coordinates are reals, and the default `Bounds` has infinite corners.
- **Ownership.** `World` holds the members of all readers, writers and headers
  and carries out every operation member by member in the order of the source.
  Each operation is proved equal to a function from state to state, and the
  functions are proved to keep the invariant. Safety is stated on the log of
  everything that happened (`Ledgers.Book`): a handle is opened once, used and
  freed only while it and its adapter are there, and an adapter goes only when
  no handle works through it. A writer's free counts as a use of its adapter.
  The delegating constructors are an opening, a move and the destruction of the
  temporary, which are three operations of a program.

## Where the code differs from what is said about it

- A refused seek is not without effect. Both adapters move the stream buffer to
  its end while measuring, and return before moving it back. On the way in
  `InputRuns.RefusedSeekLosesPosition` is the shortest case,
  `InputRuns.RefusedSeekKeepsPosition` says when a seek does no harm, and
  `InputRuns.AdapterIsAFile` that the adapter agrees with a file throughout
  exactly the runs in which all refused seeks are of that kind. On the way out
  these are `OutputRuns.RefusedSeekLosesPosition` and
  `OutputRuns.RefusedSeekKeepsPosition`.
- The output adapter is said to zero-fill "as files do" (`include/lasrs/stream.hpp:156`).
  A file does so when something is written past the gap, the adapter already
  when it is asked to seek. There are three differences. Zeros are left behind
  the content, up to the furthest position sought. A seek relative to the end
  is answered differently exactly if a gap waits to be written and one of the two
  can grant it (`OutputRuns.EndSeekAgrees`). And a full stream refuses a seek that a
  file grants, exactly if content or furthest seek do not fit
  (`OutputRuns.Replay`; `OutputRuns.SeekPastFullStream` is a case).
  On a stream with room enough, `OutputRuns.AgreeThroughoutExactlyIfHarmless`
  says of every run whether answers and positions are those of a sparse file: exactly
  if each operation is harmless (`OutputRuns.Harmless`), which can be told before it
  from the sparse file and the furthest position sought so far.
- `children` and `parent` undo each other only while no coordinate loses its
  top bit: `ParentUndoesChild` gives the condition for every 32-bit key. It
  holds for all keys of the tree above level 31.
- `bounds` takes a key of any level, but from level 32 on the 32-bit coordinates
  no longer reach all of the cube: `Boxes.LevelCoversRoot`.

## Model

| member | source | states |
|---|---|---|
| Seeking.Resolve | include/lasrs/stream.hpp:24-36 | for every `SeekFrom`, `seek_with` and `seek_target` together give the exact mathematical target if it lies in 0..2^63-1 and refuse otherwise, without signed overflow |
| InputStreams.InputStream.constructor | include/lasrs/stream.hpp:51-55 | the adapter stands for a file holding the bytes from the current position on, at position 0 |
| InputStreams.InputStream.Read | include/lasrs/stream.hpp:63-77 | delivers the file's bytes at the position, none at or past the end |
| InputStreams.InputStream.SeekCallback | include/lasrs/stream.hpp:82-120 | moves the file's position to the target, past the end or not; `past_end_` is set exactly past the end; a refused seek leaves the adapter no earlier than the end |
| InputStreams.InputStream.Seek | rust/src/stream.rs:93-108 | succeeds exactly when the target is representable; a `Start` beyond `i64` is refused without touching the stream |
| InputStreams.InputStream.ReadExact | rust/src/stream.rs:110-119 | succeeds exactly when all the bytes are there, and otherwise consumes what is left |
| InputRuns.AdapterIsAFile | include/lasrs/stream.hpp:79-120 | over every sequence of reads and seeks, outcomes and positions are those of a file throughout exactly if every refused seek is a `Start` or is made at or past the end |
| InputRuns.NoRefusalIsHarmless | include/lasrs/stream.hpp:79-120 | in particular they are if nothing is refused |
| InputRuns.RefusedSeekKeepsPosition | include/lasrs/stream.hpp:88-100 | a refused seek leaves the position as a file would exactly when it is at or past the end, or the callback was not reached |
| InputRuns.RefusedSeekLosesPosition | include/lasrs/stream.hpp:88-100 | a concrete backward seek after which the adapter reads nothing where a file reads on |
| InputRuns.ConsecutiveReads | include/lasrs/stream.hpp:63-77 | reads one after another deliver, joined, what one read of their total length would |
| InputRuns.Perform | include/lasrs/stream.hpp:63-120 | each operation on the adapter is the step that the runs are made of |
| InputRuns.Replay | include/lasrs/stream.hpp:48-125 | an adapter made behind any prefix behaves, over any sequence of operations, as on the body alone, and as a file if refusals are harmless |
| InputRuns.RunConsumer | rust/src/limits.rs:30-31 | any consumer that chooses operations from what it has seen gets the same result as on the file |
| InputRuns.ConsumeIsARun | rust/src/limits.rs:30-31 | what a consumer does is a run of the adapter, each operation of which it chooses from the outcomes of those before |
| OutputStreams.OutputStream.Write | include/lasrs/stream.hpp:142-154 | writes all bytes or, on a full stream, a first part of them and reports failure; bytes before the start are kept |
| OutputStreams.OutputStream.FillZeros | include/lasrs/stream.hpp:177-188 | the chunked loop appends exactly the gap, or fails exactly if it does not fit; index by index, the old bytes are kept and every new one is 0 |
| OutputStreams.OutputStream.SeekCallback | include/lasrs/stream.hpp:158-201 | the position becomes the target and the content reaches it; which seeks fail, and what they leave behind; granted or not, old bytes are kept and every new one is 0 |
| OutputStreams.OutputStream.Seek | rust/src/stream.rs:145-149 | the same for every `SeekFrom`, in terms of the exact target |
| OutputRuns.SparseRunBytes | include/lasrs/stream.hpp:142-157 | byte by byte, a sparse file holds after any run what was written there last, else what it held before, else zero |
| OutputRuns.AdapterSimulatesSparseFile | include/lasrs/stream.hpp:142-201 | over every run of harmless operations, with or without seeks relative to the end, the adapter gives the sparse file's answers, stands at the same position, and holds its bytes followed by zeros only, up to the furthest position sought |
| OutputRuns.StepAgreesExactly | include/lasrs/stream.hpp:142-201 | one operation is answered like the sparse file's and leads to the same position exactly if it is harmless, and then keeps the simulation |
| OutputRuns.AgreeThroughoutExactlyIfHarmless | include/lasrs/stream.hpp:142-201 | over every run of writes and seeks of any kind, answers and positions are the sparse file's throughout exactly if all operations are harmless |
| OutputRuns.SuccessfulRunsAreHarmless | include/lasrs/stream.hpp:156-201 | all runs are harmless in which there is no seek relative to the end and the sparse file refuses nothing |
| OutputRuns.EndSeekAgrees | include/lasrs/stream.hpp:170-176 | a seek relative to the end is granted or refused as by the sparse file, and to the same position, exactly if no gap is waiting to be written or neither can grant it |
| OutputRuns.EndSeekSeesTheGap | include/lasrs/stream.hpp:170-188 | what both answer to every seek relative to the end made after every seek into an empty stream |
| OutputRuns.RefusedSeekKeepsPosition | include/lasrs/stream.hpp:163-176 | a refused seek changes nothing exactly if the callback was not reached or the adapter stood at its end |
| OutputRuns.RefusedSeekLosesPosition | include/lasrs/stream.hpp:163-176 | a concrete refused seek after which the next write goes elsewhere than in a file |
| OutputRuns.Perform | include/lasrs/stream.hpp:142-201 | an operation is the step that the runs are made of exactly if its result fits the stream |
| OutputRuns.Replay | include/lasrs/stream.hpp:127-217 | over any run, bytes before the start are unchanged, and answers are those of an endless stream exactly if everything fits; in harmless runs they are the sparse file's exactly if the start plus its content and the furthest seek fit, and then each byte is what was written there last, else what was there before, else zero; seeks alone, granted or not, only append zeros |
| OutputRuns.SeekPastFullStream | include/lasrs/stream.hpp:177-188 | a concrete stream with room for 4 bytes that does not answer a seek to 5 and back as a file would |
| Basics.DecodesSigned | rust/src/limits.rs:81-85 | 8 bytes read as `i64` are the signed number that they encode in two's complement |
| Basics.EncodesOne | rust/src/limits.rs:61-65 | bytes encode one number of their width and no other, so decoding is the inverse of encoding |
| Basics.LittleEndian | rust/src/limits.rs:96-96 | where each byte of a number stands: lowest first |
| Limits.ReadAt | rust/src/limits.rs:58-60 | a seek and an exact read succeed exactly if the target is representable and the bytes exist |
| Limits.NextRecord | rust/src/limits.rs:58-65 | the next position is the exact sum of the position, 60 and the number whose 8 bytes stand at offset 20, lowest first; rejection means it lies past the end |
| Limits.CheckEvlrs | rust/src/limits.rs:45-68 | accepts exactly if records can be laid back to back inside the data whose length fields hold the encodings of their lengths, whatever the bytes; enters the loop at most (end - start)/60 + 1 times whatever the count |
| Limits.ChainFitsMeansLaidOut | rust/src/limits.rs:45-68 | a chain fits exactly if records with the lengths they declare lie back to back inside the data, and then 60 n plus all lengths is at most what is there |
| Limits.FindChunkTable | rust/src/limits.rs:78-86 | once the first read succeeds the fallback to the last 8 bytes cannot fail, and no conversion wraps |
| Limits.ChunksFitStored | rust/src/limits.rs:78-97 | in terms of the numbers encoded in the data: which of the two offsets counts, when the table is judged at all, and that its count is too high exactly if 20 times it exceeds what is before the table |
| Limits.CheckLazChunkCount | rust/src/limits.rs:73-105 | rejects exactly if the table lies behind the data start and inside the stream and declares more chunks than fit at 20 bytes each; stated on the offsets and the count that the data encode |
| Limits.RoomForChunks | rust/src/limits.rs:19-21 | `n` disjoint chunks of 20 bytes can be placed in a region exactly if 20 n is at most its size |
| Limits.AcceptedSizesAreBounded | rust/src/limits.rs:3-7 | sizes that pass the check are bounded by the data: the EVLRs with their headers, and 20 bytes for each chunk of a table inside the stream |
| Limits.CheckHeader | rust/src/limits.rs:30-40 | accepts exactly if a header is found, its EVLRs can be laid out and, if bit 7 of the format is set, its chunk table holds |
| Limits.CheckDeclaredSizes | rust/src/limits.rs:26-43 | leaves the stream where it was, with `past_end_` as it was, on every verdict and after every parser; the verdict depends on the file only |
| Limits.CheckEmbedded | rust/src/limits.rs:26-43 | data behind any prefix is judged as if it stood alone |
| PointReading.ReadBatches | rust/src/limits.rs:108-120 | terminates with exactly the next min(n, left) records for every partial delivery; the remaining count never underflows; each request is at most 2^20 |
| PointReading.ReadPoints | rust/src/limits.rs:108-122 | the points gathered are exactly the next min(n, left) records, whole |
| PointReading.RecordsInFlatten | rust/src/limits.rs:121-122 | records of one length can be read off the bytes gathered |
| PointReading.Reader.ReadAll | rust/src/reader.rs:112-123 | from any position returns exactly the records that are left |
| PointReading.Reader.Seek | rust/src/reader.rs:140-147 | a seek past the last point stops there |
| PointReading.Reader.Perform | rust/src/reader.rs:99-147 | what each call delivers and where it leaves the reader |
| PointReading.DeliveriesAreContiguous | rust/src/reader.rs:99-137 | in every session what is delivered between two seeks is one contiguous slice of the file |
| PointReading.RunSession | rust/src/reader.rs:99-147 | every sequence of calls is a session, and in it each read takes the cursor c to min(c + n, N), each read of all points to N, each fill at least one point on if any is asked for and left, and each seek where it stops |
| PointReading.PiecesCoverTheRest | rust/src/reader.rs:99-109 | the pieces of `k` points hold every point left exactly once |
| PointReading.ReadInSteps | rust/src/reader.rs:99-109 | reading `k` points at a time until nothing comes delivers exactly those pieces, which hold exactly the records left |
| Octree.ParentUndoesChild | include/lasrs/types.hpp:548-571 | over all 32-bit keys, `parent` undoes `child` exactly if the level is not negative and no coordinate loses its top bit |
| Octree.ChildInTree | include/lasrs/types.hpp:548-556 | children of tree keys above level 31 are tree keys, without overflow, and have them as parent |
| Octree.ChildOfParent | include/lasrs/types.hpp:568-571 | below the root every 32-bit key is a child of its parent |
| Octree.Children | include/lasrs/types.hpp:558-566 | the loop yields the child in each of the eight directions |
| Octree.ChildrenAreExactlyThose | include/lasrs/types.hpp:558-571 | the children are exactly the tree keys one level down with that parent, all different |
| Octree.KeyOf | include/lasrs/types.hpp:546-556 | a path of length l at most 31 leads to a key of level l with 0 <= x, y, z < 2^l |
| Octree.PathLeadsToKey | include/lasrs/types.hpp:548-571 | every such key is reached by the path found by going up |
| Octree.KeyHasOnePath | include/lasrs/types.hpp:548-571 | and by no other path |
| Octree.UpShortensPath | include/lasrs/types.hpp:568-571 | n steps up lead to where the path without its last n steps leads |
| Octree.LevelIsDistanceToRoot | include/lasrs/types.hpp:568-571 | from a key of level l, exactly l steps up lead to the root, which is its own parent |
| Octree.ShiftsExactly | include/lasrs/types.hpp:548-571 | over all 32-bit integers shifting a bit in is exact modulo 2^32, and shifting one out rounds down |
| Boxes.IntersectMeansCommonPoint | include/lasrs/types.hpp:425-429 | boxes with points in them intersect exactly if they have a point in common |
| Boxes.Bounds.Grow | include/lasrs/types.hpp:417-421 | a box contains the grown bounds exactly if it contains the bounds and the point |
| Boxes.GrownIsLeast | include/lasrs/types.hpp:412-421 | growing the default bounds by points gives the least box that contains them |
| Boxes.GrowingIgnoresOrder | include/lasrs/types.hpp:417-421 | the result does not depend on order or repetition of the points |
| Boxes.BoundsOf | include/lasrs/types.hpp:410-421 | growing point by point in place gives that least box |
| Boxes.IntervalsPartition | include/lasrs/types.hpp:573-585 | in one axis, at every level, the cells of the grid partition the root's interval |
| Boxes.LevelPartitionsRoot | include/lasrs/types.hpp:573-585 | up to level 31 the half-open boxes of all keys of a level partition the root cube |
| Boxes.LevelCoversRoot | include/lasrs/types.hpp:573-585 | over every 32-bit level, the boxes of its keys cover the root cube exactly if the level is at most 31 or the half size is not positive |
| Boxes.ChildrenPartitionParent | include/lasrs/types.hpp:548-585 | the eight children's half-open boxes partition their parent's box |
| Boxes.ChildInsideParent | include/lasrs/types.hpp:573-585 | a child's box lies inside its parent's exactly if the half size is not negative |
| Boxes.DescendantInsideAncestor | include/lasrs/types.hpp:568-585 | every descendant's box lies inside each ancestor's |
| Boxes.AncestorsMeetQuery | include/lasrs/types.hpp:425-429 | if a key's box intersects a query then so do the boxes of all its ancestors |
| Marshalling.PointRoundTrip | rust/src/types.rs:390-421 | a C++ point goes into Rust exactly if its scan direction is 0 or 1 and its classification is not 12, with every field in its place, and comes back unchanged; which error the others give |
| Marshalling.RustPointRoundTrip | rust/src/types.rs:354-388 | a Rust point that goes to C++ and back is unchanged |
| Marshalling.FieldsBack | rust/src/types.rs:354-388 | a Rust point comes back with every field in its place |
| Marshalling.PointsToC | include/lasrs/types.hpp:785-795 | the extra bytes are the concatenation in point order |
| Marshalling.PointsFromFfi | rust/src/types.rs:428-444 | every split is in range, the bytes are consumed exactly, and the result is that of converting each point with its own part |
| Marshalling.CutUndoesFlatten | rust/src/types.rs:434-442 | cutting a concatenation by the lengths gives the parts back |
| Marshalling.RefusedForFirst | rust/src/types.rs:436-443 | a list is refused with the error of its first unacceptable point |
| Marshalling.IntoRust | rust/src/types.rs:428-444 | a list arrives exactly if all its points are acceptable, field by field as it was, whatever the extra-byte lengths, and otherwise fails with the error of the first that is not |
| Marshalling.PointsOut | rust/src/point_data.rs:132-151 | if all extra bytes have the format's length the slab is filled without gaps or overlaps by their concatenation |
| Marshalling.Window | include/lasrs/point_data.hpp:71-71 | each window is in range, and holds its own part of a slab put together from parts of its length |
| Marshalling.SliceBack | include/lasrs/point_data.hpp:69-72 | slicing the slab gives each point its own extra bytes back |
| Marshalling.PointsBack | include/lasrs/point_data.hpp:60-74 | the points come back unchanged exactly if all extra bytes have the format's length; if any come back, all do, field by field, with extra bytes of that length |
| Marshalling.SlabIsConcatenation | include/lasrs/types.hpp:779-795 | if all extra bytes have the format's length, the slab filled on the way back equals the buffer that `PointsForC` builds from the points that come back |
| Marshalling.ThereAndBack | include/lasrs/point_data.hpp:60-74 | a list survives the way into Rust and back exactly if its points are acceptable and their extra bytes have the format's length |
| Ledgers.FreedOnce | rust/src/lib.rs:45-51 | in a log without violations everything is freed once if it was made and is gone, and never otherwise |
| Ledgers.CountsOccurrences | rust/src/lib.rs:45-51 | what is counted for `FreedOnce` is the number of occurrences |
| Ledgers.AdapterMadeBefore | include/lasrs/writer.hpp:87-92 | a handle is opened only through an adapter that is there |
| Ledgers.AdapterGoneAfter | include/lasrs/writer.hpp:94-97 | the adapter goes only after the handle was freed |
| Ledgers.UsedWhileAlive | rust/src/lib.rs:45-51 | a handle is used or freed only between its opening and its freeing, and a header read only while it, or the handle it points into, is there |
| UniquePtrs.MoveAssignKeepsOwners | include/lasrs/error.hpp:88-96 | move assignment of an owning member, to itself too, keeps one owner for everything alive |
| Ownership.HandlesUsable | include/lasrs/writer.hpp:94-97 | while the invariant holds every live handle has its adapter, and no two share one |
| Ownership.OpenKeepsValid | include/lasrs/reader.hpp:83-93 | opening keeps the invariant; a reader's header points into its handle |
| Ownership.FailedOpenKeepsValid | include/lasrs/reader.hpp:88-93 | a failed opening gives its adapter up and leaves the rest as it was |
| Ownership.MoveConstructKeepsValid | include/lasrs/reader.hpp:37-37 | move construction keeps the invariant |
| Ownership.MoveAssignKeepsValid | include/lasrs/writer.hpp:47-55 | move assignment, to itself too, frees the handle before its adapter and keeps the invariant |
| Ownership.AdapterFirstIsWrong | include/lasrs/writer.hpp:47-55 | in the order of declaration the assignment would be in order exactly if the object has no adapter |
| Ownership.DestroyKeepsValid | include/lasrs/writer.hpp:94-98 | destruction in reverse order of declaration keeps the invariant |
| Ownership.RenewKeepsValid | include/lasrs/header.hpp:49-71 | a new owned header in place of an old one keeps the invariant |
| Ownership.HeaderMoveAssignKeepsValid | include/lasrs/header.hpp:66-71 | move assignment of headers, to itself too, keeps the invariant |
| Ownership.HeaderMoveKeepsValid | include/lasrs/header.hpp:53-55 | move construction of headers keeps the invariant |
| Ownership.HeaderDestroyKeepsValid | include/lasrs/header.hpp:73-73 | destruction of a header keeps the invariant |
| Ownership.UseKeepsValid | include/lasrs/reader.hpp:51-80 | handles that objects hold can be used, and headers that point somewhere can be read |
| Programs.World.AssignHandle | include/lasrs/writer.hpp:51-51 | takes the other's handle and frees the own one; to itself, keeps it and frees nothing |
| Programs.World.AssignAdapter | include/lasrs/writer.hpp:52-52 | takes the other's adapter and gives up the own one; to itself, keeps it |
| Programs.World.AssignHeader | include/lasrs/header.hpp:66-71 | owned header and read-through address move together |
| Programs.World.OpenObject | include/lasrs/writer.hpp:87-92 | the adapter first, then the handle, then the members; on failure nothing stays |
| Programs.World.MoveAssignObject | include/lasrs/writer.hpp:49-55 | the object assigned to has the other's handle and adapter, the other none; its own handle, adapter and header go in that order; assignment to itself changes nothing |
| Programs.World.DestroyObject | include/lasrs/copc.hpp:156-158 | members go in reverse order of declaration |
| Programs.World.Perform | include/lasrs/header.hpp:57-64 | each operation of a program is the step the runs are made of; copy assignment goes through a temporary unless to itself |
| Programs.StepKeepsValid | include/lasrs/writer.hpp:42-68 | every permitted operation on any object keeps the invariant |
| Programs.RunKeepsValid | include/lasrs/writer.hpp:42-68 | so does every program |
| Programs.ProgramsAreSafe | include/lasrs/writer.hpp:94-97 | in every program each adapter is there from before the opening of its handle until after its freeing, and handles and headers are used, freed and read only between their beginning and their end |
| Programs.EverythingIsFreedOnce | include/lasrs/error.hpp:88-96 | once all objects are destroyed, every handle, adapter and header was freed exactly once |
| Programs.ObjectsShareNothing | include/lasrs/reader.hpp:95-97 | in every program objects own disjoint handles and adapters, a reader's header points into its own handle or nowhere, and a header that owns a Rust header points to it |
| Programs.RunProgram | include/lasrs/reader.hpp:37-49 | carrying out any program member by member does nothing that must not be done |
| Holders.MoveAssignTakesOver | include/lasrs/writer.hpp:49-55 | after a move assignment one object has what the other had, handle, adapter and header, the other nothing; exactly what was there is freed, in order; nothing else changes |
| Holders.MoveConstructTakesOver | include/lasrs/copc.hpp:87-87 | after a move construction the new object has what the other had, the other nothing, and nothing is freed |
| Holders.OpenMakes | include/lasrs/writer.hpp:87-92 | an opening makes an adapter if on a stream, then a handle through it, then in a reader the header inside it |
| Holders.FailedOpenMakesNothing | include/lasrs/writer.hpp:87-92 | a failed opening makes an adapter and gives it up, and changes nothing |
| Holders.DestroyGivesUp | include/lasrs/writer.hpp:94-98 | a destruction frees header, handle and adapter in that order, and changes no other object |
| Holders.HeadersMade | include/lasrs/writer.hpp:64-68 | what reading a writer's header, making, copying and copy-assigning a header make, free and read |
| Holders.HeadersMoved | include/lasrs/header.hpp:53-71 | what moving and move-assigning a stand-alone header take over and free |
| Holders.FreedExactlyWithHolder | include/lasrs/writer.hpp:42-55 | over every program, what an object holds goes with every move; its handle and its adapter are freed exactly if the object holding them is destroyed or takes over another one |
| Holders.HeaderFreedExactlyWithHolder | include/lasrs/header.hpp:53-73 | the same of every Rust header that a C++ header owns |
| Benchmarking.RecordStart | benchmarks/main.cpp:453-455 | the compared bytes are the start of the right record |
| Benchmarking.CompareBatch | benchmarks/main.cpp:451-456 | the count is the size of the set of records of the batch that differ in the compared bytes |
| Benchmarking.CompareNext | benchmarks/main.cpp:442-457 | stops exactly if the other file has fewer records left |
| Benchmarking.CountDiffering | benchmarks/main.cpp:438-462 | tells fewer, equally many and more records apart and counts all differences over any number of batches |
| Benchmarking.Compare | benchmarks/main.cpp:425-470 | answers yes exactly for files of one layout with equally many records that agree on the compared bytes, and otherwise says truly why not; the number reported is the size of the set of records that differ, at least 1 and at most all |
| Benchmarking.ReadBatch | benchmarks/main.cpp:236-244 | each point of a batch gets its own window with its own extra bytes, although the reader reuses one buffer |
| Benchmarking.WriteBatch | benchmarks/main.cpp:246-250 | the points of a batch are written with the extra bytes they were read with |
| Benchmarking.LaszipWrite | benchmarks/main.cpp:218-259 | exactly the input points are written, in order |

## Left out

- las-rs and laz-rs themselves: header parsing, the LAZ codec, COPC queries and hierarchies, `Transform::inverse`, `Bounds::adapt`; they appear as contracts or as arbitrary steps.
- `BufReader` and `BufWriter` between las-rs and the adapters, files, threads: the adapters are modelled unbuffered over bytes in memory.
- `flush`, which changes neither bytes nor position, and the rejection of streams that are not seekable or not in a good state when an adapter is made.
- Exceptions thrown by a stream buffer: the callbacks turn them into a failed call; only a full output stream is modelled as a failing one.
- Errors of `fill_points`: a failed call ends `read_points` and a session; its contract is assumed for calls that succeed.
- Records that las-rs cannot decode: they fail `lasrs_point_data_points` as a whole.
- The fields of a point that C++, C and Rust hold in the same shape (`Marshalling.Common`) are copied as one block, not one by one.
- Validity of addresses, `repr(C)` layout, panic catching and the last-error message.
- Rounding of floating-point numbers, NaN, and infinities other than those of the default bounds.
- Version and feature tables, format flags, VLR predicates, GeoTIFF keys, display copying, builders, header getters and mutators, column accessors: finite or field by field.
- Headers passed to a writer when it is opened: they are only read, like a copied header.
- The entry list of `CopcReader::hierarchy_entries`: an element-wise copy.
- Timing, memory measurement, plotting and the other libraries of the benchmark program.
- Octree.KeyOf: keys below level 31 are not enumerated, because their coordinates do not fit 32 bits; `Boxes.LevelCoversRoot` says what that means for their boxes.
