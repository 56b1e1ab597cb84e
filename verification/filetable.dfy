/** The per-process descriptor table and the reference-counted open files of kern/fs/file.c
    and kern/include/file.h. Open files live in a pool keyed by identity (the `struct file *`
    pointer); a table slot holds the identity of its file or nothing (NULL). */
module FileTable {
  import opened Common

  const FILES_STRUCT_DEFAULT_CAPACITY: nat := 3

  const SEEK_SET: int := 0
  const SEEK_CUR: int := 1
  const SEEK_END: int := 2

  /** Identity of an open file (the pointer value). */
  type FileId = nat

  /** `struct file`, as far as the core uses it: reference count, 64-bit offset, and
      whether the underlying vnode is seekable (VOP_ISSEEKABLE). */
  datatype File = File(refc: nat, offset: nat, seekable: bool)

  /** Every open file object, by identity. */
  type Pool = map<FileId, File>

  /** `struct files_struct`: open-slot count, slot array length, number of processes that
      share the table, and the slots. */
  datatype FilesStruct = FilesStruct(count: nat, capacity: nat, refc: nat, fds: seq<Option<FileId>>)

  type Slots = seq<Option<FileId>>

  // ---------------------------------------------------------------- counting

  function IsOpen(o: Option<FileId>): bool { o.Some? }

  /** Number of non-NULL slots. */
  function NumOpen(fds: Slots): nat
  {
    Count(fds, IsOpen)
  }

  /** Number of slots that refer to file `id`. */
  function Occ(fds: Slots, id: FileId): nat
  {
    Count(fds, o => o == Some(id))
  }

  // ---------------------------------------------------------------- table invariant

  /** 3, 6, 12, 24, ...: the capacities doubling from the default can produce. */
  predicate DoublesOfDefault(c: nat)
    decreases c
  {
    c == FILES_STRUCT_DEFAULT_CAPACITY || (c > FILES_STRUCT_DEFAULT_CAPACITY && c % 2 == 0 && DoublesOfDefault(c / 2))
  }

  /** The field meanings of file.h as an invariant: the slot array has exactly `capacity`
      entries, `count` is the number of open slots, and the capacity is a doubling of the
      default that fits its uint32_t field. */
  predicate TableOk(fs: FilesStruct)
  {
    && |fs.fds| == fs.capacity
    && fs.count == NumOpen(fs.fds)
    && DoublesOfDefault(fs.capacity)
    && fs.capacity < WORD
  }

  /** files_struct_create (allocation failures left out): three NULL slots, nothing open,
      one holder. */
  function FilesStructCreate(): (fs: FilesStruct)
    ensures TableOk(fs)
    ensures fs.capacity == FILES_STRUCT_DEFAULT_CAPACITY && fs.count == 0 && fs.refc == 1
    ensures forall i :: 0 <= i < |fs.fds| ==> fs.fds[i].None?
  {
    var fds := seq(FILES_STRUCT_DEFAULT_CAPACITY, _ => None);
    CountNone(fds, IsOpen);
    FilesStruct(0, FILES_STRUCT_DEFAULT_CAPACITY, 1, fds)
  }

  // ---------------------------------------------------------------- table refcount

  /** files_struct_incref: one more holder (uint32_t); returns the new count. */
  function FilesStructIncref(fs: FilesStruct): (r: (FilesStruct, nat))
    ensures r.1 == r.0.refc
    ensures fs.refc + 1 < WORD ==> r.1 == fs.refc + 1
    ensures r.0 == fs.(refc := r.1)
  {
    var n := Wrap32(fs.refc + 1);
    (fs.(refc := n), n)
  }

  /** files_struct_decref: one holder fewer, with no check, so 0 wraps to 2^32 - 1. */
  function FilesStructDecref(fs: FilesStruct): (r: (FilesStruct, nat))
    ensures r.1 == r.0.refc
    ensures 0 < fs.refc < WORD ==> r.1 == fs.refc - 1
    ensures fs.refc == 0 ==> r.1 == WORD - 1
    ensures r.0 == fs.(refc := r.1)
  {
    var n := Wrap32(fs.refc - 1);
    (fs.(refc := n), n)
  }

  /** Incref then decref gives the table back. */
  lemma IncrefDecrefRestores(fs: FilesStruct)
    requires fs.refc + 1 < WORD
    ensures FilesStructDecref(FilesStructIncref(fs).0).0 == fs
  {
  }

  // ---------------------------------------------------------------- file refcounts

  /** file_addref: one more reference (uint32_t); returns the new count. */
  function FileAddref(f: File): (r: (File, nat))
    ensures r.1 == r.0.refc && r.0.offset == f.offset && r.0.seekable == f.seekable
    ensures f.refc + 1 < WORD ==> r.1 == f.refc + 1
  {
    var n := Wrap32(f.refc + 1);
    (f.(refc := n), n)
  }

  /** file_decref: KASSERT(refc > 0), then one reference fewer; returns the new count. */
  function FileDecref(f: File): (r: Result<(File, nat)>)
    ensures r.Panic? <==> f.refc == 0
    ensures r.Ok? ==> r.value.1 == f.refc - 1 && r.value.0 == f.(refc := f.refc - 1)
  {
    if f.refc == 0 then Panic else Ok((f.(refc := f.refc - 1), f.refc - 1))
  }

  /** file_dup: one more reference on the file, and the same file back. */
  function FileDup(pool: Pool, id: FileId): (r: (Pool, FileId))
    requires id in pool
    ensures r.1 == id && id in r.0 && r.0.Keys == pool.Keys
    ensures pool[id].refc + 1 < WORD ==> r.0[id] == pool[id].(refc := pool[id].refc + 1)
    ensures forall other :: other in pool && other != id ==> r.0[other] == pool[other]
  {
    (pool[id := FileAddref(pool[id]).0], id)
  }

  /** The pool after a reference to a file with refc >= 1 is dropped. */
  function DropRef(pool: Pool, id: FileId): (r: Pool)
    requires id in pool && pool[id].refc >= 1
    ensures pool[id].refc == 1 ==> r == pool - {id}
    ensures pool[id].refc > 1 ==> r == pool[id := pool[id].(refc := pool[id].refc - 1)]
  {
    if pool[id].refc - 1 != 0 then pool[id := pool[id].(refc := pool[id].refc - 1)] else pool - {id}
  }

  /** file_destroy (also file_close): drop one reference; the file is released (leaves the
      pool) only when that was the last one; a file with no references trips the KASSERT
      in file_decref. */
  function FileDestroy(pool: Pool, id: FileId): (r: Result<Pool>)
    requires id in pool
    ensures r.Panic? <==> pool[id].refc == 0
    ensures pool[id].refc == 1 ==> r == Ok(pool - {id})
    ensures pool[id].refc > 1 ==> r == Ok(pool[id := pool[id].(refc := pool[id].refc - 1)])
  {
    match FileDecref(pool[id])
    case Panic => Panic
    case Ok(_) => Ok(DropRef(pool, id))
  }

  /** file_dup then file_destroy leaves the pool as it was. */
  lemma DupThenDestroyRestores(pool: Pool, id: FileId)
    requires id in pool && 1 <= pool[id].refc && pool[id].refc + 1 < WORD
    ensures FileDestroy(FileDup(pool, id).0, id) == Ok(pool)
  {
    var p1 := FileDup(pool, id).0;
    assert p1[id := p1[id].(refc := p1[id].refc - 1)] == pool;
  }

  // ---------------------------------------------------------------- destroy

  /** Every slot's file is open and holds at least as many references as the slots that
      name it. */
  predicate RefsCover(fds: Slots, pool: Pool)
  {
    forall i :: 0 <= i < |fds| && fds[i].Some? ==>
      fds[i].value in pool && pool[fds[i].value].refc >= Occ(fds, fds[i].value)
  }

  /** Occurrences in a table split into its first slot and the rest. */
  lemma OccFirst(fds: Slots)
    requires |fds| > 0
    ensures forall id: FileId :: Occ(fds, id) == (if fds[0] == Some(id) then 1 else 0) + Occ(fds[1..], id)
  {
  }

  /** Dropping the first slot keeps the coverage of the rest. */
  lemma RefsCoverRest(fds: Slots, pool: Pool)
    requires |fds| > 0 && fds[0].None? && RefsCover(fds, pool)
    ensures RefsCover(fds[1..], pool)
  {
    var rest := fds[1..];
    OccFirst(fds);
    forall i | 0 <= i < |rest| && rest[i].Some?
      ensures rest[i].value in pool && pool[rest[i].value].refc >= Occ(rest, rest[i].value)
    {
      assert rest[i] == fds[i + 1];
    }
  }

  /** Destroying the first slot's file keeps the coverage of the rest. */
  lemma RefsCoverDrop(fds: Slots, pool: Pool, id: FileId)
    requires |fds| > 0 && fds[0] == Some(id) && RefsCover(fds, pool)
    ensures id in pool && pool[id].refc >= 1
    ensures RefsCover(fds[1..], DropRef(pool, id))
  {
    var rest := fds[1..];
    var pool1 := DropRef(pool, id);
    OccFirst(fds);
    forall i | 0 <= i < |rest| && rest[i].Some?
      ensures rest[i].value in pool1 && pool1[rest[i].value].refc >= Occ(rest, rest[i].value)
    {
      assert rest[i] == fds[i + 1];
      CountHit(rest, i, o => o == rest[i]);
    }
  }

  /** Every slot's file is still allocated when the destroy loop reaches it: the file is
      open and either has no reference left (its first slot trips file_decref's KASSERT) or
      at least one per slot naming it (so file_destroy never frees it while a later slot
      still names it). */
  predicate LiveSlots(fds: Slots, pool: Pool)
  {
    forall i :: 0 <= i < |fds| && fds[i].Some? ==>
      fds[i].value in pool && (pool[fds[i].value].refc == 0 || pool[fds[i].value].refc >= Occ(fds, fds[i].value))
  }

  /** Some slot names an open file whose reference count is already zero. */
  predicate ZeroNamed(fds: Slots, pool: Pool)
  {
    exists i :: 0 <= i < |fds| && fds[i].Some? && fds[i].value in pool && pool[fds[i].value].refc == 0
  }

  /** Skipping an empty first slot changes neither property. */
  lemma LiveSlotsRest(fds: Slots, pool: Pool)
    requires |fds| > 0 && fds[0].None? && LiveSlots(fds, pool)
    ensures LiveSlots(fds[1..], pool)
    ensures ZeroNamed(fds, pool) <==> ZeroNamed(fds[1..], pool)
  {
    var rest := fds[1..];
    OccFirst(fds);
    forall i | 0 <= i < |rest|
      ensures rest[i] == fds[i + 1]
    {
    }
    if ZeroNamed(fds, pool) {
      var i :| 0 <= i < |fds| && fds[i].Some? && fds[i].value in pool && pool[fds[i].value].refc == 0;
      assert rest[i - 1] == fds[i];
    }
  }

  /** Destroying the first slot's file, when it still has a reference, keeps the rest of
      the slots live, and the rest name a zero-count file exactly when the whole table did. */
  lemma LiveSlotsDrop(fds: Slots, pool: Pool, id: FileId)
    requires |fds| > 0 && fds[0] == Some(id) && LiveSlots(fds, pool) && pool[id].refc > 0
    ensures LiveSlots(fds[1..], DropRef(pool, id))
    ensures ZeroNamed(fds, pool) <==> ZeroNamed(fds[1..], DropRef(pool, id))
  {
    var rest := fds[1..];
    var pool1 := DropRef(pool, id);
    OccFirst(fds);
    assert fds[0].Some? && fds[0].value == id;
    forall i | 0 <= i < |rest| && rest[i].Some?
      ensures rest[i].value in pool1
      ensures pool1[rest[i].value].refc == 0 || pool1[rest[i].value].refc >= Occ(rest, rest[i].value)
      ensures pool1[rest[i].value].refc == 0 <==> pool[rest[i].value].refc == 0
    {
      assert rest[i] == fds[i + 1];
      if rest[i].value == id {
        CountHit(rest, i, o => o == rest[i]);
      }
    }
    if ZeroNamed(fds, pool) {
      var i :| 0 <= i < |fds| && fds[i].Some? && fds[i].value in pool && pool[fds[i].value].refc == 0;
      assert i > 0;
      assert rest[i - 1] == fds[i];
    }
    if ZeroNamed(rest, pool1) {
      var i :| 0 <= i < |rest| && rest[i].Some? && rest[i].value in pool1 && pool1[rest[i].value].refc == 0;
      assert rest[i] == fds[i + 1];
    }
  }

  /** Covered slots are live and name no file with a zero count. */
  lemma RefsCoverLive(fds: Slots, pool: Pool)
    requires RefsCover(fds, pool)
    ensures LiveSlots(fds, pool) && !ZeroNamed(fds, pool)
  {
    if ZeroNamed(fds, pool) {
      var i :| 0 <= i < |fds| && fds[i].Some? && fds[i].value in pool && pool[fds[i].value].refc == 0;
      CountHit(fds, i, o => o == fds[i]);
      assert false;
    }
  }

  /** The file_destroy calls of files_struct_destroy over the slots, in index order. A slot
      whose file has no reference left trips the KASSERT of file_decref. */
  function DestroyAll(fds: Slots, pool: Pool): (r: Result<Pool>)
    requires LiveSlots(fds, pool)
    ensures r.Panic? <==> ZeroNamed(fds, pool)
    ensures r.Ok? ==> r.value.Keys <= pool.Keys
    decreases |fds|
  {
    if |fds| == 0 then Ok(pool)
    else
      match fds[0]
      case None =>
        LiveSlotsRest(fds, pool);
        DestroyAll(fds[1..], pool)
      case Some(id) =>
        if pool[id].refc == 0 then
          assert fds[0].Some? && fds[0].value in pool && pool[fds[0].value].refc == 0;
          Panic
        else
          LiveSlotsDrop(fds, pool, id);
          DestroyAll(fds[1..], DropRef(pool, id))
  }

  /** What destroying every slot's file does to one file, when every slot is covered by
      its file's count: the loop never halts; the file is untouched when no slot names it,
      its count lowered by the number of slots naming it, and released when that number is
      its whole count. */
  lemma {:induction false} DestroyAllAt(fds: Slots, pool: Pool, id: FileId)
    requires RefsCover(fds, pool) && id in pool
    ensures LiveSlots(fds, pool) && DestroyAll(fds, pool).Ok?
    ensures var r := DestroyAll(fds, pool).value;
      && (Occ(fds, id) == 0 ==> id in r && r[id] == pool[id])
      && (Occ(fds, id) < pool[id].refc ==> id in r && r[id] == pool[id].(refc := pool[id].refc - Occ(fds, id)))
      && (0 < Occ(fds, id) == pool[id].refc ==> id !in r)
    decreases |fds|
  {
    RefsCoverLive(fds, pool);
    if |fds| > 0 {
      OccFirst(fds);
      match fds[0]
      case None =>
        RefsCoverRest(fds, pool);
        RefsCoverLive(fds[1..], pool);
        DestroyAllAt(fds[1..], pool, id);
      case Some(x) =>
        RefsCoverDrop(fds, pool, x);
        var pool1 := DropRef(pool, x);
        RefsCoverLive(fds[1..], pool1);
        if id in pool1 {
          DestroyAllAt(fds[1..], pool1, id);
        }
    }
  }

  /** files_struct_destroy: one holder fewer; while other holders remain the table stays
      and no slot is read, otherwise every open slot's file loses one reference per slot
      (halting on a file with none left) and the table is released (None). */
  function FilesStructDestroy(fs: FilesStruct, pool: Pool): (r: Result<(Option<FilesStruct>, Pool)>)
    requires |fs.fds| == fs.capacity && fs.refc < WORD
    requires fs.refc == 1 ==> LiveSlots(fs.fds, pool)
    ensures fs.refc != 1 ==> r == Ok((Some(FilesStructDecref(fs).0), pool))
    ensures fs.refc == 1 ==> (r.Panic? <==> ZeroNamed(fs.fds, pool))
    ensures fs.refc == 1 && r.Ok? ==> r.value.0.None? && r.value.1 == DestroyAll(fs.fds, pool).value
  {
    var (fs1, n) := FilesStructDecref(fs);
    if n != 0 then Ok((Some(fs1), pool))
    else
      match DestroyAll(fs.fds, pool)
      case Panic => Panic
      case Ok(pool') => Ok((None, pool'))
  }

  /** The last holder's files_struct_destroy on a table whose slots are covered by their
      files' counts: it never halts, and each file loses exactly one reference per slot
      naming it, leaving the pool when that was its whole count. */
  lemma LastHolderReleasesFiles(fs: FilesStruct, pool: Pool, id: FileId)
    requires |fs.fds| == fs.capacity && fs.refc == 1 && RefsCover(fs.fds, pool) && id in pool
    ensures FilesStructDestroy(fs, pool).Ok?
    ensures var (t, r) := FilesStructDestroy(fs, pool).value;
      && t.None?
      && (Occ(fs.fds, id) == 0 ==> id in r && r[id] == pool[id])
      && (Occ(fs.fds, id) < pool[id].refc ==> id in r && r[id] == pool[id].(refc := pool[id].refc - Occ(fs.fds, id)))
      && (0 < Occ(fs.fds, id) == pool[id].refc ==> id !in r)
  {
    DestroyAllAt(fs.fds, pool, id);
  }

  // ---------------------------------------------------------------- growth

  /** files_struct_ensurespace: nothing when `sz` fits; otherwise the capacity doubles until
      it holds `sz`, old slots keep their index and the new slots are NULL. */
  method EnsureSpace(fs: FilesStruct, sz: nat) returns (fs': FilesStruct)
    requires TableOk(fs) && (sz <= fs.capacity || sz <= WORD / 2)
    ensures sz <= fs.capacity ==> fs' == fs
    ensures fs.capacity < sz <= 2 * fs.capacity ==> fs'.capacity == 2 * fs.capacity
    ensures TableOk(fs') && fs'.count == fs.count && fs'.refc == fs.refc
    ensures fs'.capacity >= sz && fs'.capacity >= fs.capacity
    ensures sz > fs.capacity ==> fs'.capacity / 2 < sz
    ensures fs'.fds[..fs.capacity] == fs.fds
    ensures forall i :: fs.capacity <= i < fs'.capacity ==> fs'.fds[i].None?
  {
    if sz <= fs.capacity {
      return fs;
    }
    var cap := DoubleUntil(fs.capacity, sz);
    var added := seq(cap - fs.capacity, _ => None);
    CountNone(added, IsOpen);
    CountConcat(fs.fds, added, IsOpen);
    fs' := fs.(capacity := cap, fds := fs.fds + added);
    assert fs'.fds[..fs.capacity] == fs.fds;
  }

  /** The doubling loop of files_struct_ensurespace: the first doubling of `c` that holds
      `sz`. */
  method DoubleUntil(c: nat, sz: nat) returns (cap: nat)
    requires DoublesOfDefault(c) && c < sz <= WORD / 2
    ensures DoublesOfDefault(cap) && sz <= cap < WORD && cap / 2 < sz
    ensures cap >= 2 * c
    ensures sz <= 2 * c ==> cap == 2 * c
  {
    cap := c;
    while sz > cap
      invariant cap >= c > 0
      invariant DoublesOfDefault(cap)
      invariant cap > c ==> cap / 2 < sz
      invariant cap == c || cap >= 2 * c
      invariant sz <= 2 * c && cap > c ==> cap == 2 * c
      invariant cap < WORD
      decreases sz - cap
    {
      cap := cap * 2;
    }
  }

  // ---------------------------------------------------------------- slot operations

  function FirstNullFrom(fds: Slots, from: nat): (r: Option<nat>)
    requires from <= |fds| && forall j :: 0 <= j < from ==> fds[j].Some?
    ensures r.Some? ==> r.value < |fds| && fds[r.value].None? && forall j :: 0 <= j < r.value ==> fds[j].Some?
    ensures r.None? ==> forall j :: 0 <= j < |fds| ==> fds[j].Some?
    decreases |fds| - from
  {
    if from == |fds| then None
    else if fds[from].None? then Some(from)
    else FirstNullFrom(fds, from + 1)
  }

  /** Reference definition of the slot files_struct_append fills: the lowest NULL slot. */
  function FirstNull(fds: Slots): (r: Option<nat>)
    ensures r.Some? ==> r.value < |fds| && fds[r.value].None? && forall j :: 0 <= j < r.value ==> fds[j].Some?
    ensures r.None? ==> forall j :: 0 <= j < |fds| ==> fds[j].Some?
  {
    FirstNullFrom(fds, 0)
  }

  /** A table with fewer open slots than slots has a NULL slot. */
  lemma NullExists(fds: Slots)
    requires NumOpen(fds) < |fds|
    ensures FirstNull(fds).Some?
  {
    if FirstNull(fds).None? {
      CountAll(fds, IsOpen);
    }
  }

  /** files_struct_append: room for count + 1 files, then the file goes into the lowest
      NULL slot, whose index is returned, and count goes up by one. */
  method FilesStructAppend(fs: FilesStruct, id: FileId) returns (idx: nat, fs': FilesStruct)
    requires TableOk(fs) && (fs.count < fs.capacity || fs.count < WORD / 2)
    ensures TableOk(fs')
    ensures idx <= |fs.fds|
    ensures idx < fs'.capacity && fs'.fds[idx] == Some(id)
    ensures idx < |fs.fds| ==> fs.fds[idx].None?
    ensures forall j :: 0 <= j < idx ==> fs.fds[j].Some?
    ensures forall j :: 0 <= j < |fs'.fds| && j != idx ==> fs'.fds[j] == (if j < |fs.fds| then fs.fds[j] else None)
    ensures fs'.count == fs.count + 1 && fs'.refc == fs.refc
    ensures fs'.capacity == fs.capacity || (fs.count == fs.capacity && fs'.capacity == 2 * fs.capacity)
  {
    var grown := EnsureSpace(fs, fs.count + 1);
    NullExists(grown.fds);
    var i := 0;
    while i < grown.capacity
      invariant 0 <= i <= grown.capacity
      invariant forall j :: 0 <= j < i ==> grown.fds[j].Some?
      invariant FirstNullFrom(grown.fds, i) == FirstNull(grown.fds)
      decreases grown.capacity - i
    {
      if grown.fds[i].None? {
        break;
      }
      i := i + 1;
    }
    idx := FirstNull(grown.fds).value;
    assert idx == i;
    fs' := grown.(count := grown.count + 1, fds := grown.fds[idx := Some(id)]);
    AppendAt(fs, grown, idx, id);
  }

  /** What storing a file in the first NULL slot of a table grown by EnsureSpace means for
      the table before growth: the slot lies at or below its end, every slot below was open,
      and all other slots keep their contents (NULL past the old end). */
  lemma AppendAt(fs: FilesStruct, grown: FilesStruct, idx: nat, id: FileId)
    requires TableOk(fs) && TableOk(grown) && grown.count == fs.count
    requires grown.capacity >= fs.capacity && grown.fds[..fs.capacity] == fs.fds
    requires forall i :: fs.capacity <= i < grown.capacity ==> grown.fds[i].None?
    requires idx < grown.capacity && grown.fds[idx].None?
    requires forall j :: 0 <= j < idx ==> grown.fds[j].Some?
    ensures idx <= |fs.fds|
    ensures idx < |fs.fds| ==> fs.fds[idx].None?
    ensures forall j :: 0 <= j < idx ==> fs.fds[j].Some?
    ensures forall j :: 0 <= j < grown.capacity && j != idx ==>
      grown.fds[idx := Some(id)][j] == (if j < |fs.fds| then fs.fds[j] else None)
    ensures TableOk(grown.(count := grown.count + 1, fds := grown.fds[idx := Some(id)]))
  {
    assert fs.capacity < grown.capacity ==> grown.fds[fs.capacity].None?;
    CountUpdate(grown.fds, idx, Some(id), IsOpen);
    forall j | 0 <= j < idx
      ensures fs.fds[j].Some?
    {
      assert grown.fds[j] == grown.fds[..fs.capacity][j];
    }
    if idx < |fs.fds| {
      assert grown.fds[idx] == grown.fds[..fs.capacity][idx];
    }
    forall j | 0 <= j < grown.capacity && j != idx
      ensures grown.fds[idx := Some(id)][j] == (if j < |fs.fds| then fs.fds[j] else None)
    {
      if j < |fs.fds| {
        assert grown.fds[j] == grown.fds[..fs.capacity][j];
      }
    }
  }

  /** files_struct_remove: KASSERT(fd < capacity); the slot's file is returned and the slot
      NULLed; count drops only when the slot was open. */
  function FilesStructRemove(fs: FilesStruct, fd: nat): (r: Result<(Option<FileId>, FilesStruct)>)
    requires |fs.fds| == fs.capacity && fs.count < WORD
    ensures r.Panic? <==> fd >= fs.capacity
    ensures r.Ok? ==> var (old_, fs') := r.value;
      && old_ == fs.fds[fd]
      && fs'.capacity == fs.capacity && fs'.refc == fs.refc && |fs'.fds| == |fs.fds|
      && fs'.fds[fd].None?
      && (forall j :: 0 <= j < |fs.fds| && j != fd ==> fs'.fds[j] == fs.fds[j])
      && fs'.count == (if old_.Some? then Wrap32(fs.count - 1) else fs.count)
    ensures r.Ok? && TableOk(fs) ==> TableOk(r.value.1)
  {
    if fd >= fs.capacity then Panic
    else
      var old_ := fs.fds[fd];
      CountUpdate(fs.fds, fd, None, IsOpen);
      Ok((old_, fs.(count := if old_.Some? then Wrap32(fs.count - 1) else fs.count, fds := fs.fds[fd := None])))
  }

  /** files_struct_check_idx: the index names a slot of the array. */
  function FilesStructCheckIdx(fs: FilesStruct, fd: nat): (ok: bool)
    ensures |fs.fds| == fs.capacity ==> (ok <==> fd < |fs.fds|)
  {
    fs.capacity > fd
  }

  /** files_struct_get: NULL past the end, else the slot's file; nothing changes. */
  function FilesStructGet(fs: FilesStruct, fd: nat): (r: Option<FileId>)
    requires |fs.fds| == fs.capacity
    ensures fd >= fs.capacity ==> r.None?
    ensures fd < fs.capacity ==> r == fs.fds[fd]
    ensures r.Some? ==> FilesStructCheckIdx(fs, fd) && r in fs.fds
  {
    if !FilesStructCheckIdx(fs, fd) then None else fs.fds[fd]
  }

  /** files_struct_set: KASSERT(file != NULL); remove the slot (KASSERT(fd < capacity))
      and destroy what it held; KASSERT(fd > 0); store the file and count one more open
      slot. The ensurespace(fd) call in between never grows the table, since fd already
      fits. */
  function FilesStructSet(fs: FilesStruct, pool: Pool, fd: nat, file: Option<FileId>)
    : (r: Result<(FilesStruct, Pool)>)
    requires |fs.fds| == fs.capacity && fs.count < WORD
    requires file.Some? && fd < |fs.fds| && fs.fds[fd].Some? ==> fs.fds[fd].value in pool
    ensures r.Ok? <==>
      && file.Some? && 0 < fd < fs.capacity
      && (fs.fds[fd].Some? ==> pool[fs.fds[fd].value].refc > 0)
    ensures r.Ok? ==> var (fs', pool') := r.value;
      && fs'.fds == fs.fds[fd := file]
      && fs'.capacity == fs.capacity && fs'.refc == fs.refc
      && fs'.count == (if fs.fds[fd].Some? then Wrap32(Wrap32(fs.count - 1) + 1) else Wrap32(fs.count + 1))
      && pool' == (if fs.fds[fd].Some? then FileDestroy(pool, fs.fds[fd].value).value else pool)
    ensures r.Ok? && TableOk(fs) ==> TableOk(r.value.0)
  {
    if file.None? then Panic
    else
      match FilesStructRemove(fs, fd)
      case Panic => Panic
      case Ok((old_, fs1)) =>
        var destroyed := if old_.Some? then FileDestroy(pool, old_.value) else Ok(pool);
        if destroyed.Panic? then Panic
        else if fd == 0 then Panic
        else
          CountUpdate(fs1.fds, fd, file, IsOpen);
          CountUpdate(fs.fds, fd, None, IsOpen);
          Ok((fs1.(count := Wrap32(fs1.count + 1), fds := fs1.fds[fd := file]), destroyed.value))
  }

  // ---------------------------------------------------------------- lseek

  /** file_lseek: ESPIPE for a file that cannot seek; SEEK_SET takes a non-negative offset
      (EINVAL otherwise); SEEK_CUR adds to the current offset; SEEK_END adds to the file
      size (`size`, from VOP_STAT); any other whence is EINVAL. The new offset is kept in
      the uint64_t field and returned as an off_t. Errors leave the file unchanged. */
  function FileLseek(f: File, offset: int, whence: int, size: int): (r: (SysRet, File))
    requires -(WORD64 / 2) <= offset < WORD64 / 2 && f.offset < WORD64
    requires -(WORD64 / 2) <= size < WORD64 / 2
    ensures !f.seekable ==> r == (Error(ESPIPE), f)
    ensures r.0.Error? ==> r.1 == f
    ensures r.0.Error? ==> r.0.e == ESPIPE || r.0.e == EINVAL
    ensures f.seekable && whence != SEEK_SET && whence != SEEK_CUR && whence != SEEK_END ==> r.0 == Error(EINVAL)
    ensures f.seekable && whence == SEEK_SET ==> (r.0.Error? <==> offset < 0)
    ensures r.0.Value? ==> r.1 == f.(offset := Wrap64(r.0.v)) && Wrap64(r.0.v) < WORD64
    ensures r.0.Value? && whence == SEEK_SET ==> r.0.v == offset
    ensures r.0.Value? && whence == SEEK_CUR && f.offset + offset < WORD64 / 2 ==> r.0.v == f.offset + offset
    ensures r.0.Value? && whence == SEEK_END && -(WORD64 / 2) <= size + offset < WORD64 / 2 ==> r.0.v == size + offset
    ensures f.seekable && (whence == SEEK_CUR || whence == SEEK_END) ==> r.0.Value?
  {
    if !f.seekable then (Error(ESPIPE), f)
    else if whence == SEEK_SET then
      if offset < 0 then (Error(EINVAL), f) else (Value(offset), f.(offset := offset))
    else if whence == SEEK_CUR then
      var o := Wrap64(f.offset + offset);
      (Value(ToSigned64(o)), f.(offset := o))
    else if whence == SEEK_END then
      var o := Wrap64(size + offset);
      (Value(ToSigned64(o)), f.(offset := o))
    else (Error(EINVAL), f)
  }

  /** Seeking to a position and then moving relative to it lands at the sum. */
  lemma LseekSetThenCur(f: File, a: int, b: int, size: int)
    requires f.seekable && f.offset < WORD64
    requires 0 <= a && 0 <= a + b < WORD64 / 2 && -(WORD64 / 2) <= b < WORD64 / 2
    requires a < WORD64 / 2
    requires -(WORD64 / 2) <= size < WORD64 / 2
    ensures var (r1, f1) := FileLseek(f, a, SEEK_SET, size);
      r1 == Value(a) && FileLseek(f1, b, SEEK_CUR, size).0 == Value(a + b)
  {
  }

  /** lseek(fd, 0, SEEK_CUR) reports the current offset and changes nothing. */
  lemma LseekCurZeroIsTell(f: File, size: int)
    requires f.seekable && f.offset < WORD64 / 2
    requires -(WORD64 / 2) <= size < WORD64 / 2
    ensures FileLseek(f, 0, SEEK_CUR, size) == (Value(f.offset), f)
  {
  }
}
