/**
 ListAllFatFiles: append the path of every regular file below a directory
 to an output vector, depth first.
 */
module ListFiles {
  import opened Common
  import opened DirTree

  /** The boolean ListAllFatFiles returns and the output vector it leaves behind. */
  datatype Listed = Listed(ok: bool, files: seq<Path>)

  /**
   ListAllFatFiles(path, out_files). An unopenable path leaves `out`
   alone. Otherwise the readdir loop appends each regular-file entry's path
   as it meets it, and then the walk recurses into the subdirectory entries
   in readdir order, giving up if one of those calls returns false.

   Since the only `false` comes from a recursive call, none is ever
   returned; the vector only grows, by exactly the walk's listing.
   */
  function ListAllFatFiles(path: Path, n: Node, out: seq<Path>): (r: Listed)
    ensures r.ok
    ensures r.files == out + Listing(path, n)
    decreases n
  {
    match n
    case Unopenable => Listed(true, out)
    case Dir(es) =>
      var r := ListSubdirs(path, es, out + FilesHere(path, es));
      assert r.files == out + Listing(path, n);
      r
  }

  /**
   The second loop of ListAllFatFiles: one recursive call per subdirectory
   entry among `es`, in order (the other entries were sorted out by the
   readdir loop and are passed over here).
   */
  function ListSubdirs(path: Path, es: seq<Entry>, out: seq<Path>): (r: Listed)
    ensures r.ok
    ensures r.files == out + SubListings(path, es)
    decreases es
  {
    if es == [] then Listed(true, out)
    else if KindOf(es[0]) != SubDir then
      assert SubListings(path, es) == SubListings(path, es[1..]);
      ListSubdirs(path, es[1..], out)
    else
      var child := Child(path, es[0].name);
      var sub := ListAllFatFiles(child, es[0].child, out);
      if !sub.ok then Listed(false, sub.files)
      else
        var here, later := Listing(child, es[0].child), SubListings(path, es[1..]);
        assert SubListings(path, es) == here + later;
        assert (out + here) + later == out + (here + later);
        ListSubdirs(path, es[1..], sub.files)
  }

  /**
   What ListAllFatFiles appends is, as a set, exactly the regular files
   reachable from `path`: nothing that is not such a file, and none of them
   left out.
   */
  lemma ListAllFatFilesFindsExactlyFiles(path: Path, n: Node, out: seq<Path>, p: Path)
    ensures var r := ListAllFatFiles(path, n, out);
            p in r.files[|out|..] <==> FileIn(path, n, p)
  {
    var r := ListAllFatFiles(path, n, out);
    assert r.files[|out|..] == Listing(path, n);
    ListingIsFiles(path, n, p);
  }

  /**
   In a well-formed tree ListAllFatFiles appends no directory path: neither
   `path` itself nor any subdirectory the walk goes through, nor any entry
   it passes over.
   */
  lemma ListAllFatFilesSkipsDirectories(path: Path, n: Node, out: seq<Path>, p: Path)
    requires WellFormed(n)
    requires p in ListAllFatFiles(path, n, out).files[|out|..]
    ensures p != path && !DirIn(path, n, p) && !NonFileIn(path, n, p)
  {
    ListAllFatFilesFindsExactlyFiles(path, n, out, p);
    FileInBelow(path, n, p);
    FilesAreNotDirectories(path, n, p);
    FilesAreNotNonFiles(path, n, p);
  }
}
