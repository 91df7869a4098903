/**
 The directory tree that opendir/readdir expose to ListAllFatFiles and
 DeleteFatDirectory, the classification of its entries, and the listing a
 depth-first walk of it produces.
 */
module DirTree {
  import opened Common

  /** The d_type bit of a directory entry that marks a directory (dirent.h). */
  const DT_DIR: bv8 := 4
  /** The d_type bit of a directory entry that marks a regular file (dirent.h). */
  const DT_REG: bv8 := 8

  /**
   What opendir sees at a path: either it fails, or it yields a stream of
   entries in readdir order. The child of an entry is what opendir would see
   at that entry's path.
   */
  datatype Node = Unopenable | Dir(entries: seq<Entry>)
  datatype Entry = Entry(name: Path, dtype: bv8, child: Node)

  /** How a walk treats an entry: recurse into it, take it as a file, or pass over it. */
  datatype Kind = SubDir | RegularFile | Skipped

  /** The type test of the walks: the directory bit is looked at first, then the regular-file bit. */
  function Classify(dtype: bv8): Kind
  {
    if dtype & DT_DIR != 0 then SubDir
    else if dtype & DT_REG != 0 then RegularFile
    else Skipped
  }

  /** The self and parent pseudo-entries. */
  predicate IsDotEntry(name: Path)
  {
    name == "." || name == ".."
  }

  /** The walks skip "." and ".." by name before they look at the type. */
  function KindOf(e: Entry): Kind
  {
    if IsDotEntry(e.name) then Skipped else Classify(e.dtype)
  }

  /** The path of an entry, as `path + "/" + ent->d_name`. */
  function Child(path: Path, name: Path): Path
  {
    path + "/" + name
  }

  /** Paths of this directory's regular-file entries, in readdir order. */
  function FilesHere(path: Path, es: seq<Entry>): (fs: seq<Path>)
    ensures |fs| <= |es|
  {
    if es == [] then []
    else (if KindOf(es[0]) == RegularFile then [Child(path, es[0].name)] else []) + FilesHere(path, es[1..])
  }

  /**
   The files a depth-first walk from `path` reports: this directory's
   regular files first, in readdir order, then the listing of each
   subdirectory in readdir order. Directories themselves are not reported.
   */
  function Listing(path: Path, n: Node): seq<Path>
    decreases n
  {
    match n
    case Unopenable => []
    case Dir(es) => FilesHere(path, es) + SubListings(path, es)
  }

  /** The listings of the subdirectory entries among `es`, one after the other. */
  function SubListings(path: Path, es: seq<Entry>): seq<Path>
    decreases es
  {
    if es == [] then []
    else (if KindOf(es[0]) == SubDir then Listing(Child(path, es[0].name), es[0].child) else [])
         + SubListings(path, es[1..])
  }

  /**
   `p` is the path of a regular-file entry that a walk from `path` reaches:
   one in this directory, or one reached through a subdirectory entry.
   */
  ghost predicate FileIn(path: Path, n: Node, p: Path)
    decreases n
  {
    match n
    case Unopenable => false
    case Dir(es) => exists i :: 0 <= i < |es| && FileUnder(path, es[i], p)
  }

  /** `p` is the entry `e` itself, if it is a regular file, or a file below it, if it is a subdirectory. */
  ghost predicate FileUnder(path: Path, e: Entry, p: Path)
    decreases e
  {
    match KindOf(e)
    case RegularFile => p == Child(path, e.name)
    case SubDir => FileIn(Child(path, e.name), e.child, p)
    case Skipped => false
  }

  /** The listing holds exactly the regular files the walk reaches (as a set; its order is readdir order). */
  lemma {:induction false} ListingIsFiles(path: Path, n: Node, p: Path)
    ensures p in Listing(path, n) <==> FileIn(path, n, p)
    decreases n
  {
    match n
    case Unopenable =>
    case Dir(es) =>
      EntriesListingIsFiles(path, es, p);
  }

  lemma {:induction false} EntriesListingIsFiles(path: Path, es: seq<Entry>, p: Path)
    ensures p in FilesHere(path, es) + SubListings(path, es)
            <==> exists i :: 0 <= i < |es| && FileUnder(path, es[i], p)
    decreases es
  {
    if es != [] {
      var e := es[0];
      EntriesListingIsFiles(path, es[1..], p);
      if KindOf(e) == SubDir {
        ListingIsFiles(Child(path, e.name), e.child, p);
      }
      if exists i :: 0 <= i < |es| && FileUnder(path, es[i], p) {
        var i :| 0 <= i < |es| && FileUnder(path, es[i], p);
        if i > 0 {
          assert es[1..][i - 1] == es[i];
        }
      }
      if exists j :: 0 <= j < |es[1..]| && FileUnder(path, es[1..][j], p) {
        var j :| 0 <= j < |es[1..]| && FileUnder(path, es[1..][j], p);
        assert es[j + 1] == es[1..][j];
      }
    }
  }

  lemma {:induction false} FilesHereAppend(path: Path, a: seq<Entry>, b: seq<Entry>)
    ensures FilesHere(path, a + b) == FilesHere(path, a) + FilesHere(path, b)
  {
    if a == [] {
      assert a + b == b;
    } else {
      var x := (if KindOf(a[0]) == RegularFile then [Child(path, a[0].name)] else []);
      assert (a + b)[0] == a[0];
      assert (a + b)[1..] == a[1..] + b;
      FilesHereAppend(path, a[1..], b);
      assert x + (FilesHere(path, a[1..]) + FilesHere(path, b)) == (x + FilesHere(path, a[1..])) + FilesHere(path, b);
    }
  }

  lemma {:induction false} SubListingsAppend(path: Path, a: seq<Entry>, b: seq<Entry>)
    ensures SubListings(path, a + b) == SubListings(path, a) + SubListings(path, b)
  {
    if a == [] {
      assert a + b == b;
    } else {
      var x := (if KindOf(a[0]) == SubDir then Listing(Child(path, a[0].name), a[0].child) else []);
      assert (a + b)[0] == a[0];
      assert (a + b)[1..] == a[1..] + b;
      SubListingsAppend(path, a[1..], b);
      assert x + (SubListings(path, a[1..]) + SubListings(path, b)) == (x + SubListings(path, a[1..])) + SubListings(path, b);
    }
  }

  /**
   An entry with both type bits is a directory, and one with neither is
   passed over; so is any entry named "." or "..".
   */
  lemma ClassifyPrecedence(e: Entry)
    ensures !IsDotEntry(e.name) && e.dtype & DT_DIR != 0 ==> KindOf(e) == SubDir
    ensures e.dtype & (DT_DIR | DT_REG) == 0 ==> KindOf(e) == Skipped
    ensures IsDotEntry(e.name) ==> KindOf(e) == Skipped
    ensures KindOf(e) == RegularFile <==> !IsDotEntry(e.name) && e.dtype & DT_DIR == 0 && e.dtype & DT_REG != 0
  {
  }

  /**
   A skipped entry (".", "..", or one with neither type bit) adds nothing to
   the listing: dropping it from the directory leaves the listing unchanged.
   */
  lemma SkippedEntryInvisible(path: Path, es: seq<Entry>, i: nat)
    requires i < |es| && KindOf(es[i]) == Skipped
    ensures Listing(path, Dir(es)) == Listing(path, Dir(es[..i] + es[i + 1..]))
  {
    assert es == es[..i] + ([es[i]] + es[i + 1..]);
    FilesHereAppend(path, es[..i], [es[i]] + es[i + 1..]);
    FilesHereAppend(path, [es[i]], es[i + 1..]);
    FilesHereAppend(path, es[..i], es[i + 1..]);
    SubListingsAppend(path, es[..i], [es[i]] + es[i + 1..]);
    SubListingsAppend(path, [es[i]], es[i + 1..]);
    SubListingsAppend(path, es[..i], es[i + 1..]);
    assert FilesHere(path, [es[i]]) == [];
    assert SubListings(path, [es[i]]) == [];
  }

  /** `p` is the path of a subdirectory entry that a walk from `path` reaches. */
  ghost predicate DirIn(path: Path, n: Node, p: Path)
    decreases n
  {
    match n
    case Unopenable => false
    case Dir(es) => exists i :: 0 <= i < |es| && DirUnder(path, es[i], p)
  }

  /** `p` is the entry `e` itself, if it is a subdirectory, or a subdirectory below it. */
  ghost predicate DirUnder(path: Path, e: Entry, p: Path)
    decreases e
  {
    KindOf(e) == SubDir && (p == Child(path, e.name) || DirIn(Child(path, e.name), e.child, p))
  }

  /**
   `p` is the path of an entry the walk reaches but does not report as a
   file: a subdirectory, a "." or ".." entry, or one with neither type bit.
   */
  ghost predicate NonFileIn(path: Path, n: Node, p: Path)
    decreases n
  {
    match n
    case Unopenable => false
    case Dir(es) => exists i :: 0 <= i < |es| && NonFileUnder(path, es[i], p)
  }

  /** `p` is the entry `e` itself, unless it is a regular file, or a non-file entry below it. */
  ghost predicate NonFileUnder(path: Path, e: Entry, p: Path)
    decreases e
  {
    match KindOf(e)
    case RegularFile => false
    case Skipped => p == Child(path, e.name)
    case SubDir => p == Child(path, e.name) || NonFileIn(Child(path, e.name), e.child, p)
  }

  /** Every subdirectory the walk reaches is a non-file entry. */
  lemma {:induction false} DirInIsNonFile(path: Path, n: Node, p: Path)
    requires DirIn(path, n, p)
    ensures NonFileIn(path, n, p)
    decreases n
  {
    var i :| 0 <= i < |n.entries| && DirUnder(path, n.entries[i], p);
    var e := n.entries[i];
    if p != Child(path, e.name) {
      DirInIsNonFile(Child(path, e.name), e.child, p);
    }
    assert NonFileUnder(path, e, p);
  }

  /**
   A tree a real directory can have: names hold no separator and no two
   entries of one directory share a name, at every level the walk visits.
   */
  ghost predicate WellFormed(n: Node)
    decreases n
  {
    match n
    case Unopenable => true
    case Dir(es) =>
      && (forall i :: 0 <= i < |es| ==> '/' !in es[i].name)
      && (forall i, j :: 0 <= i < j < |es| ==> es[i].name != es[j].name)
      && (forall i :: 0 <= i < |es| ==> KindOf(es[i]) == SubDir ==> WellFormed(es[i].child))
  }

  /** `p` lies strictly below the directory at `q`. */
  predicate Below(q: Path, p: Path)
  {
    q + "/" <= p
  }

  lemma BelowChild(path: Path, name: Path, p: Path)
    requires Below(Child(path, name), p)
    ensures Below(path, p)
  {
    assert (path + "/") + (name + "/") == Child(path, name) + "/";
  }

  /** Every file a walk from `path` reports lies below `path`. */
  lemma {:induction false} FileInBelow(path: Path, n: Node, p: Path)
    requires FileIn(path, n, p)
    ensures Below(path, p)
    decreases n
  {
    var i :| 0 <= i < |n.entries| && FileUnder(path, n.entries[i], p);
    var e := n.entries[i];
    if KindOf(e) == SubDir {
      FileInBelow(Child(path, e.name), e.child, p);
      BelowChild(path, e.name, p);
    }
  }

  /** Every non-file entry a walk from `path` reaches lies below `path`. */
  lemma {:induction false} NonFileInBelow(path: Path, n: Node, p: Path)
    requires NonFileIn(path, n, p)
    ensures Below(path, p)
    decreases n
  {
    var i :| 0 <= i < |n.entries| && NonFileUnder(path, n.entries[i], p);
    var e := n.entries[i];
    if p != Child(path, e.name) {
      NonFileInBelow(Child(path, e.name), e.child, p);
      BelowChild(path, e.name, p);
    }
  }

  /** `p` is the entry named `name` in the directory at `path`, or lies below it. */
  predicate AtOrBelow(path: Path, name: Path, p: Path)
  {
    p == Child(path, name) || Below(Child(path, name), p)
  }

  /** What follows a component inside a path at or below it is a separator. */
  lemma SeparatorAfter(path: Path, a: Path, p: Path)
    requires AtOrBelow(path, a, p)
    requires |path| + 1 + |a| < |p|
    ensures p[|path| + 1 + |a|] == '/'
  {
    assert p[|path| + 1 + |a|] == (Child(path, a) + "/")[|path| + 1 + |a|];
  }

  /** The characters of a component sit right after `path + "/"` in any path at or below it. */
  lemma ComponentChar(path: Path, b: Path, p: Path, k: nat)
    requires AtOrBelow(path, b, p)
    requires k < |b|
    ensures p[|path| + 1 + k] in b
  {
    assert Child(path, b) <= Child(path, b) + "/";
    assert p[|path| + 1 + k] == Child(path, b)[|path| + 1 + k] == b[k];
  }

  lemma ComponentNotLonger(path: Path, a: Path, b: Path, p: Path)
    requires '/' !in b
    requires AtOrBelow(path, a, p) && AtOrBelow(path, b, p)
    ensures |b| <= |a|
  {
    if |a| < |b| {
      assert Child(path, b) <= Child(path, b) + "/";
      ComponentChar(path, b, p, |a|);
      SeparatorAfter(path, a, p);
    }
  }

  /** Without separators in names, a path determines the entry of `path` that it is at or below. */
  lemma SameComponent(path: Path, a: Path, b: Path, p: Path)
    requires '/' !in a && '/' !in b
    requires AtOrBelow(path, a, p) && AtOrBelow(path, b, p)
    ensures a == b
  {
    ComponentNotLonger(path, a, b, p);
    ComponentNotLonger(path, b, a, p);
    var q := path + "/";
    assert Child(path, a) <= Child(path, a) + "/";
    assert Child(path, b) <= Child(path, b) + "/";
    assert a == p[|q|..|q| + |a|] == b;
  }

  /** The entry a file is reported through: itself, or the subdirectory it lies below. */
  lemma FileUnderAtOrBelow(path: Path, e: Entry, p: Path)
    requires FileUnder(path, e, p)
    ensures AtOrBelow(path, e.name, p)
  {
    if KindOf(e) == SubDir {
      FileInBelow(Child(path, e.name), e.child, p);
    }
  }

  lemma NonFileUnderAtOrBelow(path: Path, e: Entry, p: Path)
    requires NonFileUnder(path, e, p)
    ensures AtOrBelow(path, e.name, p)
  {
    if p != Child(path, e.name) {
      NonFileInBelow(Child(path, e.name), e.child, p);
    }
  }

  /**
   In a well-formed tree no path is both a regular file and a non-file
   entry that the walk reaches: the walk never reports a directory, or an
   entry it passes over, as a file.
   */
  lemma {:induction false} FilesAreNotNonFiles(path: Path, n: Node, p: Path)
    requires WellFormed(n)
    ensures !(FileIn(path, n, p) && NonFileIn(path, n, p))
    decreases n
  {
    if FileIn(path, n, p) && NonFileIn(path, n, p) {
      var es := n.entries;
      var i :| 0 <= i < |es| && FileUnder(path, es[i], p);
      var j :| 0 <= j < |es| && NonFileUnder(path, es[j], p);
      FileUnderAtOrBelow(path, es[i], p);
      NonFileUnderAtOrBelow(path, es[j], p);
      SameComponent(path, es[i].name, es[j].name, p);
      assert i == j;
      var e := es[i];
      var c := Child(path, e.name);
      FileInBelow(c, e.child, p);
      assert p != c;
      FilesAreNotNonFiles(c, e.child, p);
    }
  }

  /** In particular no path is both a reached regular file and a reached subdirectory. */
  lemma FilesAreNotDirectories(path: Path, n: Node, p: Path)
    requires WellFormed(n)
    ensures !(FileIn(path, n, p) && DirIn(path, n, p))
  {
    if DirIn(path, n, p) {
      DirInIsNonFile(path, n, p);
    }
    FilesAreNotNonFiles(path, n, p);
  }
}
