/**
 DeleteFatDirectory: remove every regular file below a directory, depth
 first, over a remove oracle that may fail. Directories are never removed.
 */
module DeleteDirectory {
  import opened Common
  import opened DirTree

  /** The boolean a walk returns and the paths it handed to DeleteFatFile, in order. */
  datatype Deletion = Deletion(ok: bool, removes: seq<Path>)

  /** DeleteFatFile over a remove oracle: true iff remove(path) returned 0. */
  function DeleteFatFile(path: Path, remove: Path -> bool): bool
  {
    remove(path)
  }

  /**
   The first loop after readdir: remove the collected files in order and give
   up at the first one that cannot be removed.
   */
  function RemoveFiles(files: seq<Path>, remove: Path -> bool): (r: Deletion)
    ensures StopsAtFirstFailure(r.ok, r.removes, files, remove)
  {
    if files == [] then Deletion(true, [])
    else if !DeleteFatFile(files[0], remove) then Deletion(false, [files[0]])
    else
      var rest := RemoveFiles(files[1..], remove);
      StopsAtFirstFailureAppend([files[0]], [files[0]], files[1..], rest.ok, rest.removes, remove);
      assert files == [files[0]] + files[1..];
      Deletion(rest.ok, [files[0]] + rest.removes)
  }

  /**
   DeleteFatDirectory(path). An unopenable path counts as deleted. Otherwise
   all regular files of the directory are removed first, then each
   subdirectory is deleted in readdir order, and the walk gives up at the
   first failure. The removes it attempts are the walk's listing, in order,
   up to and including the first one that fails.
   */
  function DeleteFatDirectory(path: Path, n: Node, remove: Path -> bool): (r: Deletion)
    ensures StopsAtFirstFailure(r.ok, r.removes, Listing(path, n), remove)
    decreases n
  {
    match n
    case Unopenable => Deletion(true, [])
    case Dir(es) =>
      var files := RemoveFiles(FilesHere(path, es), remove);
      if !files.ok then
        assert files.removes <= FilesHere(path, es) + SubListings(path, es);
        files
      else
        var subs := DeleteSubdirs(path, es, remove);
        StopsAtFirstFailureAppend(files.removes, FilesHere(path, es), SubListings(path, es), subs.ok, subs.removes, remove);
        Deletion(subs.ok, files.removes + subs.removes)
  }

  /**
   The second loop after readdir: one recursive call per subdirectory entry
   among `es`, in order, giving up at the first that returns false.
   */
  function DeleteSubdirs(path: Path, es: seq<Entry>, remove: Path -> bool): (r: Deletion)
    ensures StopsAtFirstFailure(r.ok, r.removes, SubListings(path, es), remove)
    decreases es
  {
    if es == [] then Deletion(true, [])
    else if KindOf(es[0]) != SubDir then DeleteSubdirs(path, es[1..], remove)
    else
      var e := es[0];
      var sub := DeleteFatDirectory(Child(path, e.name), e.child, remove);
      if !sub.ok then
        assert sub.removes <= Listing(Child(path, e.name), e.child) + SubListings(path, es[1..]);
        Deletion(false, sub.removes)
      else
        var rest := DeleteSubdirs(path, es[1..], remove);
        StopsAtFirstFailureAppend(sub.removes, Listing(Child(path, e.name), e.child), SubListings(path, es[1..]), rest.ok, rest.removes, remove);
        Deletion(rest.ok, sub.removes + rest.removes)
  }

  /** DeleteFatDirectory succeeds exactly when every regular file the walk reaches can be removed. */
  lemma DeleteSucceedsIffAllRemovable(path: Path, n: Node, remove: Path -> bool)
    ensures DeleteFatDirectory(path, n, remove).ok <==> forall p :: FileIn(path, n, p) ==> remove(p)
  {
    var r := DeleteFatDirectory(path, n, remove);
    var l := Listing(path, n);
    StopsAtFirstFailureVerdict(r.ok, r.removes, l, remove);
    forall p | FileIn(path, n, p)
      ensures r.ok ==> remove(p)
    {
      ListingIsFiles(path, n, p);
    }
    if !r.ok {
      var i :| 0 <= i < |l| && !remove(l[i]);
      ListingIsFiles(path, n, l[i]);
    }
  }

  /**
   In a well-formed tree DeleteFatDirectory never hands a directory to
   remove: not `path` itself and no subdirectory the walk goes through, nor
   any entry it passes over.
   */
  lemma DeleteNeverRemovesDirectories(path: Path, n: Node, remove: Path -> bool, p: Path)
    requires WellFormed(n)
    requires p in DeleteFatDirectory(path, n, remove).removes
    ensures p != path && !DirIn(path, n, p) && !NonFileIn(path, n, p)
  {
    var r := DeleteFatDirectory(path, n, remove);
    var i :| 0 <= i < |r.removes| && r.removes[i] == p;
    assert Listing(path, n)[i] == p;
    ListingIsFiles(path, n, p);
    FileInBelow(path, n, p);
    FilesAreNotDirectories(path, n, p);
    FilesAreNotNonFiles(path, n, p);
  }

  /**
   Every regular file of a directory is removed before the walk descends
   into any of its subdirectories: the attempts begin with this directory's
   files, and go past them only once all of them are gone.
   */
  lemma FilesBeforeSubdirectories(path: Path, es: seq<Entry>, remove: Path -> bool)
    ensures var r := DeleteFatDirectory(path, Dir(es), remove);
            var files := FilesHere(path, es);
            && (|r.removes| <= |files| ==> r.removes <= files)
            && (|r.removes| > |files| ==> r.removes[..|files|] == files && forall f :: f in files ==> remove(f))
  {
    var r := DeleteFatDirectory(path, Dir(es), remove);
    var files := FilesHere(path, es);
    assert r.removes <= files + SubListings(path, es);
    if |r.removes| > |files| {
      assert r.removes[..|files|] == files;
      forall f | f in files
        ensures remove(f)
      {
        var i :| 0 <= i < |files| && files[i] == f;
        assert r.removes[i] == f;
      }
    }
  }

  /**
   The directory tree after the paths in `gone` are removed: every entry of
   a directory the walk visits whose path is in `gone` disappears, whatever
   its kind, and everything else stays.
   */
  function Without(path: Path, n: Node, gone: set<Path>): Node
    decreases n
  {
    match n
    case Unopenable => Unopenable
    case Dir(es) => Dir(EntriesWithout(path, es, gone))
  }

  function EntriesWithout(path: Path, es: seq<Entry>, gone: set<Path>): seq<Entry>
    decreases es
  {
    if es == [] then []
    else
      var e := es[0];
      var rest := EntriesWithout(path, es[1..], gone);
      if Child(path, e.name) in gone then rest
      else if KindOf(e) == SubDir then [e.(child := Without(Child(path, e.name), e.child, gone))] + rest
      else [e] + rest
  }

  /** The tree with every regular file the walk reaches taken out and all directories in place. */
  function Skeleton(n: Node): (s: Node)
    decreases n
  {
    match n
    case Unopenable => Unopenable
    case Dir(es) => Dir(EntriesSkeleton(es))
  }

  function EntriesSkeleton(es: seq<Entry>): seq<Entry>
    decreases es
  {
    if es == [] then []
    else
      var e := es[0];
      var rest := EntriesSkeleton(es[1..]);
      match KindOf(e)
      case RegularFile => rest
      case SubDir => [e.(child := Skeleton(e.child))] + rest
      case Skipped => [e] + rest
  }

  /**
   Removing every listed file, and no directory or other entry the walk
   passes by, leaves exactly the skeleton.
   */
  lemma {:induction false} WithoutListingIsSkeleton(path: Path, n: Node, gone: set<Path>)
    requires forall p :: p in Listing(path, n) ==> p in gone
    requires forall p :: NonFileIn(path, n, p) ==> p !in gone
    ensures Without(path, n, gone) == Skeleton(n)
    decreases n
  {
    match n
    case Unopenable =>
    case Dir(es) =>
      forall i, p | 0 <= i < |es| && NonFileUnder(path, es[i], p)
        ensures p !in gone
      {
        assert NonFileIn(path, n, p);
      }
      EntriesWithoutListingIsSkeleton(path, es, gone);
  }

  lemma {:induction false} EntriesWithoutListingIsSkeleton(path: Path, es: seq<Entry>, gone: set<Path>)
    requires forall p :: p in FilesHere(path, es) + SubListings(path, es) ==> p in gone
    requires forall i, p :: 0 <= i < |es| && NonFileUnder(path, es[i], p) ==> p !in gone
    ensures EntriesWithout(path, es, gone) == EntriesSkeleton(es)
    decreases es
  {
    if es != [] {
      var e := es[0];
      var c := Child(path, e.name);
      assert es == [e] + es[1..];
      FilesHereAppend(path, [e], es[1..]);
      SubListingsAppend(path, [e], es[1..]);
      forall i, p | 0 <= i < |es[1..]| && NonFileUnder(path, es[1..][i], p)
        ensures p !in gone
      {
        assert es[1..][i] == es[i + 1];
      }
      EntriesWithoutListingIsSkeleton(path, es[1..], gone);
      match KindOf(e)
      case RegularFile =>
        assert c in FilesHere(path, es);
      case Skipped =>
        assert NonFileUnder(path, es[0], c);
      case SubDir =>
        assert NonFileUnder(path, es[0], c);
        forall p | NonFileIn(c, e.child, p)
          ensures p !in gone
        {
          assert NonFileUnder(path, es[0], p);
        }
        WithoutListingIsSkeleton(c, e.child, gone);
    }
  }

  /**
   With a remove that always succeeds, DeleteFatDirectory on a well-formed
   tree returns true and removes every regular file the walk reaches; taking
   exactly those paths out of the tree leaves the directory skeleton
   standing, since none of them names a directory.
   */
  lemma DeleteLeavesSkeleton(path: Path, n: Node, remove: Path -> bool)
    requires WellFormed(n)
    requires forall p :: remove(p)
    ensures var r := DeleteFatDirectory(path, n, remove);
            && r.ok
            && r.removes == Listing(path, n)
            && Without(path, n, set p | p in r.removes) == Skeleton(n)
  {
    var r := DeleteFatDirectory(path, n, remove);
    var gone := set p | p in r.removes;
    StopsAtFirstFailureVerdict(r.ok, r.removes, Listing(path, n), remove);
    forall p | NonFileIn(path, n, p)
      ensures p !in gone
    {
      ListingIsFiles(path, n, p);
      FilesAreNotNonFiles(path, n, p);
    }
    WithoutListingIsSkeleton(path, n, gone);
  }

  /** Removing a directory's path takes the directory out, so the result is no longer the skeleton. */
  lemma RemovedDirectoryIsGone()
    ensures var n := Dir([Entry("d", DT_DIR, Dir([]))]);
            Without("r", n, {"r/d"}) == Dir([]) != Skeleton(n)
  {
    var e := Entry("d", DT_DIR, Dir([]));
    assert KindOf(e) == SubDir;
    assert Child("r", "d") == "r/d";
    assert [e][1..] == [];
    assert EntriesWithout("r", [e], {"r/d"}) == EntriesWithout("r", [], {"r/d"}) == [];
    assert EntriesSkeleton([e]) == [e.(child := Skeleton(e.child))];
  }

  /** A skipped entry (".", "..", or one with neither type bit) changes nothing about the deletion. */
  lemma SkippedEntryNotDeleted(path: Path, es: seq<Entry>, i: nat, remove: Path -> bool)
    requires i < |es| && KindOf(es[i]) == Skipped
    ensures DeleteFatDirectory(path, Dir(es), remove) == DeleteFatDirectory(path, Dir(es[..i] + es[i + 1..]), remove)
  {
    var es' := es[..i] + es[i + 1..];
    var r := DeleteFatDirectory(path, Dir(es), remove);
    var r' := DeleteFatDirectory(path, Dir(es'), remove);
    SkippedEntryInvisible(path, es, i);
    StopsAtFirstFailureUnique(r.ok, r.removes, r'.ok, r'.removes, Listing(path, Dir(es)), remove);
  }
}
