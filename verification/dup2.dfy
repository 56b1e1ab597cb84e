/** sys_dup2 of kern/syscall/dup2_syscalls.c over the current process's descriptor table and
    the pool of open files. */
module Dup2 {
  import opened Common
  import opened FileTable

  /** OPEN_MAX of limits.h. */
  const OPEN_MAX: int := 128

  /** The 32-bit range of an `int` argument. */
  predicate IsInt32(x: int)
  {
    -(WORD / 2) <= x < WORD / 2
  }

  /** Every file a slot names is in the pool. */
  predicate SlotsInPool(fds: Slots, pool: Pool)
  {
    forall i :: 0 <= i < |fds| && fds[i].Some? ==> fds[i].value in pool
  }

  /** sys_dup2. A target outside 0 .. OPEN_MAX is EBADF; `fd1` is looked up as a size_t, and
      an empty or missing slot is EBADF; `fd1 == fd2` returns fd2 untouched. An occupied
      target is closed and then set to NULL, which trips the KASSERT(file != NULL) of
      files_struct_set, so that path always halts. Otherwise the file gains a reference and
      is stored at fd2 through files_struct_set, which halts for fd2 == 0 or for a slot
      past the end of the array. */
  function Dup2(fs: FilesStruct, pool: Pool, fd1: int, fd2: int): (r: Result<(SysRet, FilesStruct, Pool)>)
    requires TableOk(fs) && SlotsInPool(fs.fds, pool)
    requires IsInt32(fd1) && IsInt32(fd2)
    // the error path: a bad target is EBADF whatever fd1 is, a valid target with an empty
    // source slot is EBADF, and EBADF is the only error and leaves everything as it was
    ensures (fd2 < 0 || fd2 > OPEN_MAX) ==> r == Ok((Error(EBADF), fs, pool))
    ensures 0 <= fd2 <= OPEN_MAX ==>
      (FilesStructGet(fs, Wrap32(fd1)).None? <==> r == Ok((Error(EBADF), fs, pool)))
    ensures r.Ok? && r.value.0.Error? ==> r == Ok((Error(EBADF), fs, pool))
    // normal return: exactly the bad-argument cases, the self-copy, and a copy onto an
    // empty slot 1 .. capacity-1; onto an open descriptor, onto 0 or past the array it halts
    ensures r.Ok? <==>
      || fd2 < 0 || fd2 > OPEN_MAX
      || FilesStructGet(fs, Wrap32(fd1)).None?
      || fd1 == fd2
      || (0 < fd2 < fs.capacity && fs.fds[fd2].None?)
  {
    if fd2 < 0 || fd2 > OPEN_MAX then Ok((Error(EBADF), fs, pool))
    else
      match FilesStructGet(fs, Wrap32(fd1))
      case None => Ok((Error(EBADF), fs, pool))
      case Some(id) =>
        if fd1 == fd2 then Ok((Value(fd2), fs, pool))
        else
          match FilesStructGet(fs, fd2)
          case Some(id2) =>
            // file_close(fp2), then files_struct_set(fds, fd2, NULL)
            (match FileDestroy(pool, id2)
             case Panic => Panic
             case Ok(pool1) =>
               (match FilesStructSet(fs, pool1, fd2, None)
                case Panic => Panic
                // unreachable: FilesStructSet halts on a NULL file by its contract
                case Ok(_) => assert false; Panic))
          case None =>
            var (pool1, dup) := FileDup(pool, id);
            match FilesStructSet(fs, pool1, fd2, Some(dup))
            case Panic => Panic
            case Ok((fs', pool')) => Ok((Value(fd2), fs', pool'))
  }

  /** A successful copy: fd2 is returned, slot fd2 now names fd1's file, which gained one
      reference; every other slot and every other file is as before, and one more slot is
      open. A self-copy changes nothing. */
  lemma Dup2Copies(fs: FilesStruct, pool: Pool, fd1: int, fd2: int)
    requires TableOk(fs) && SlotsInPool(fs.fds, pool) && IsInt32(fd1) && IsInt32(fd2)
    requires Dup2(fs, pool, fd1, fd2).Ok? && Dup2(fs, pool, fd1, fd2).value.0.Value?
    ensures var (ret, fs', pool') := Dup2(fs, pool, fd1, fd2).value;
      var id := fs.fds[Wrap32(fd1)].value;
      && Wrap32(fd1) < fs.capacity && fs.fds[Wrap32(fd1)].Some?
      && ret == Value(fd2)
      && (fd1 == fd2 ==> fs' == fs && pool' == pool)
      && (fd1 != fd2 ==>
           && 0 < fd2 < fs.capacity && fs.fds[fd2].None?
           && fs'.fds == fs.fds[fd2 := Some(id)]
           && fs'.count == fs.count + 1 && fs'.capacity == fs.capacity && fs'.refc == fs.refc
           && pool'.Keys == pool.Keys
           && (pool[id].refc + 1 < WORD ==> pool'[id] == pool[id].(refc := pool[id].refc + 1))
           && (forall k :: k in pool && k != id ==> pool'[k] == pool[k]))
  {
    var (ret, fs', pool') := Dup2(fs, pool, fd1, fd2).value;
    if fd1 != fd2 {
      CountUpdate(fs.fds, fd2, None, IsOpen);
      assert fs.fds[fd2 := None] == fs.fds;
      assert NumOpen(fs.fds) < |fs.fds|;
    }
  }

  /** sys_dup2 keeps the descriptor table well formed and every open slot covered by its
      file's reference count, as long as that count does not wrap. */
  lemma Dup2PreservesInvariants(fs: FilesStruct, pool: Pool, fd1: int, fd2: int)
    requires TableOk(fs) && RefsCover(fs.fds, pool) && IsInt32(fd1) && IsInt32(fd2)
    requires forall k :: k in pool ==> pool[k].refc + 1 < WORD
    requires Dup2(fs, pool, fd1, fd2).Ok?
    ensures var (_, fs', pool') := Dup2(fs, pool, fd1, fd2).value;
      TableOk(fs') && RefsCover(fs'.fds, pool')
  {
    var (ret, fs', pool') := Dup2(fs, pool, fd1, fd2).value;
    if ret.Value? && fd1 != fd2 {
      Dup2Copies(fs, pool, fd1, fd2);
      var id := fs.fds[Wrap32(fd1)].value;
      forall k: FileId
        ensures Occ(fs'.fds, k) == Occ(fs.fds, k) + (if k == id then 1 else 0)
      {
        CountUpdate(fs.fds, fd2, Some(id), o => o == Some(k));
      }
      forall i | 0 <= i < |fs'.fds| && fs'.fds[i].Some?
        ensures fs'.fds[i].value in pool' && pool'[fs'.fds[i].value].refc >= Occ(fs'.fds, fs'.fds[i].value)
      {
        if i != fd2 {
          assert fs'.fds[i] == fs.fds[i];
        }
      }
    }
  }
}
