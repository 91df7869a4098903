/**
 The stat-based queries: FatFileHandle::Exists, IsFatFile and
 GetFatFileSize, over an abstract stat result.
 */
module FatStat {

  /** What stat reports for a path: failure, or whether the regular-file mode bit is set and the size. */
  datatype StatResult = StatFailed | Stat(regular: bool, size: nat)

  /**
   FatFileHandle::Exists(path, out_size). True only for a regular file, in
   which case `out_size` receives its size; otherwise `out_size` is left as
   the caller had it.
   */
  function Exists(st: StatResult, outSize: nat): (r: (bool, nat))
    ensures r.0 <==> st.Stat? && st.regular
    ensures r.0 ==> r.1 == st.size
    ensures !r.0 ==> r.1 == outSize
  {
    if st.Stat? && st.regular then (true, st.size) else (false, outSize)
  }

  /** IsFatFile(path): the path exists and is a regular file. */
  function IsFatFile(st: StatResult): (r: bool)
    ensures st.StatFailed? ==> !r
    ensures st.Stat? ==> (r <==> st.regular)
  {
    st.Stat? && st.regular
  }

  /** GetFatFileSize(path): the size of a regular file, 0 for anything else. */
  function GetFatFileSize(st: StatResult): (r: nat)
    ensures st.StatFailed? ==> r == 0
    ensures st.Stat? && !st.regular ==> r == 0
    ensures st.Stat? && st.regular ==> r == st.size
  {
    if st.Stat? && st.regular then st.size else 0
  }

  /**
   The three queries agree: Exists succeeds exactly when IsFatFile holds,
   and then reports the size GetFatFileSize returns. A missing path or a
   non-regular file has size 0, which is also the size of an empty file,
   so only IsFatFile tells them apart.
   */
  lemma StatQueriesAgree(st: StatResult, outSize: nat)
    ensures Exists(st, outSize).0 == IsFatFile(st)
    ensures IsFatFile(st) ==> Exists(st, outSize).1 == GetFatFileSize(st)
    ensures !IsFatFile(st) ==> GetFatFileSize(st) == 0 && Exists(st, outSize).1 == outSize
    ensures GetFatFileSize(Stat(true, 0)) == GetFatFileSize(StatFailed)
  {
  }
}
