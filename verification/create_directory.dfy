/**
 CreateFatDirectory: make every directory along a path, one running prefix
 at a time, tolerating directories that already exist.
 */
module CreateDirectory {
  import opened Common
  import opened PathSplit

  /** What one mkdir call reports: success, failure with errno EEXIST, or failure with any other errno. */
  datatype MkdirStatus = Created | AlreadyExists | Failed

  /** CreateFatDirectory carries on after a mkdir unless it failed for a reason other than EEXIST. */
  predicate Tolerated(st: MkdirStatus)
  {
    st != Failed
  }

  /** The calls CreateFatDirectory gets past, under a given mkdir oracle. */
  function TolerantOf(mkdir: Path -> MkdirStatus): Path -> bool
  {
    p => Tolerated(mkdir(p))
  }

  /**
   The running path after one more token: the token alone while the running
   path is still empty, otherwise the running path, '/', and the token.
   */
  function Extend(cur: Path, token: Path): Path
  {
    if cur == [] then token else cur + "/" + token
  }

  /** The running paths produced from `cur` by the tokens `ts`, one per token. */
  function Scan(cur: Path, ts: seq<Path>): (cs: seq<Path>)
    ensures |cs| == |ts|
    decreases ts
  {
    if ts == [] then [] else
      var c := Extend(cur, ts[0]);
      [c] + Scan(c, ts[1..])
  }

  /** Every path CreateFatDirectory hands to mkdir when none of them fails, in order. */
  function Candidates(dir: Path): (cs: seq<Path>)
    ensures |cs| == CountSlash(dir) + 1
  {
    Scan([], Split(dir))
  }

  lemma ScanCons(cur: Path, t: Path, ts: seq<Path>)
    ensures Scan(cur, [t] + ts) == [Extend(cur, t)] + Scan(Extend(cur, t), ts)
  {
    assert ([t] + ts)[1..] == ts;
  }

  /**
   The running paths the CreateFatDirectory loop makes from position `from`
   on with running path `cur`, one per turn: the token up to the next
   separator, or the rest of the path when no separator is left.
   */
  function Walk(dir: Path, from: nat, cur: Path): (cs: seq<Path>)
    requires from <= |dir|
    ensures cs != []
    decreases |dir| - from
  {
    match Find(dir, from)
    case None => [Extend(cur, dir[from..])]
    case Some(k) =>
      var next := Extend(cur, dir[from..k]);
      [next] + Walk(dir, k + 1, next)
  }

  /** The loop's running paths are the candidates: one per token of the rest of the path, as Scan builds them. */
  lemma {:induction false} WalkIsScan(dir: Path, from: nat, cur: Path)
    requires from <= |dir|
    ensures Walk(dir, from, cur) == Scan(cur, Split(dir[from..]))
    decreases |dir| - from
  {
    match Find(dir, from)
    case None =>
      WalkLast(dir, from, cur);
    case Some(k) =>
      var next := Extend(cur, dir[from..k]);
      WalkIsScan(dir, k + 1, next);
      WalkStep(dir, from, k, cur);
  }

  /** The last turn of the walk: no separator is left and the rest of the path is the last token. */
  lemma WalkLast(dir: Path, from: nat, cur: Path)
    requires from <= |dir|
    requires Find(dir, from) == None
    ensures Walk(dir, from, cur) == Scan(cur, Split(dir[from..]))
  {
    SplitLast(dir, from);
    ScanCons(cur, dir[from..], []);
  }

  /** A turn that meets a separator at `k` adds one running path in front of the walk from `k + 1`. */
  lemma WalkStep(dir: Path, from: nat, k: nat, cur: Path)
    requires from <= |dir|
    requires Find(dir, from) == Some(k)
    requires Walk(dir, k + 1, Extend(cur, dir[from..k])) == Scan(Extend(cur, dir[from..k]), Split(dir[k + 1..]))
    ensures Walk(dir, from, cur) == Scan(cur, Split(dir[from..]))
  {
    WalkUnfold(dir, from, k, cur);
    SplitAt(dir, from, k);
    ScanCons(cur, dir[from..k], Split(dir[k + 1..]));
  }

  lemma WalkUnfold(dir: Path, from: nat, k: nat, cur: Path)
    requires from <= |dir|
    requires Find(dir, from) == Some(k)
    ensures k + 1 <= |dir|
    ensures Walk(dir, from, cur) == [Extend(cur, dir[from..k])] + Walk(dir, k + 1, Extend(cur, dir[from..k]))
  {
  }

  /**
   How a run of the CreateFatDirectory loop ends: the calls made so far are
   the candidates up to some point, all but the last were tolerated, and the
   walk either reached the end with the last one tolerated or stopped at a
   last one that failed.
   */
  lemma Conclude(dir: Path, mkdir: Path -> MkdirStatus, ok: bool, attempted: seq<Path>, rest: seq<Path>)
    requires attempted + rest == Walk(dir, 0, [])
    requires attempted != []
    requires forall i :: 0 <= i < |attempted| - 1 ==> Tolerated(mkdir(attempted[i]))
    requires ok ==> rest == [] && Tolerated(mkdir(attempted[|attempted| - 1]))
    requires !ok ==> !Tolerated(mkdir(attempted[|attempted| - 1]))
    ensures StopsAtFirstFailure(ok, attempted, Candidates(dir), TolerantOf(mkdir))
    ensures 0 < |attempted| <= CountSlash(dir) + 1
    ensures ok <==> forall i :: 0 <= i < |Candidates(dir)| ==> Tolerated(mkdir(Candidates(dir)[i]))
  {
    var cs := Candidates(dir);
    assert dir[0..] == dir;
    WalkIsScan(dir, 0, []);
    assert attempted == cs[..|attempted|];
    if ok {
      assert attempted == attempted + rest;
    }
    StopsAtFirstFailureVerdict(ok, attempted, cs, TolerantOf(mkdir));
  }

  /**
   The loop of CreateFatDirectory over a mkdir oracle. `attempted` lists the
   paths handed to mkdir, in order. The walk covers the candidates one by one
   and gives up at the first mkdir that fails for a reason other than EEXIST,
   so it returns true exactly when every candidate was created or already
   existed.
   */
  method CreateFatDirectory(dir: Path, mkdir: Path -> MkdirStatus) returns (ok: bool, attempted: seq<Path>)
    ensures StopsAtFirstFailure(ok, attempted, Candidates(dir), TolerantOf(mkdir))
    ensures 0 < |attempted| <= CountSlash(dir) + 1
    ensures ok <==> forall i :: 0 <= i < |Candidates(dir)| ==> Tolerated(mkdir(Candidates(dir)[i]))
  {
    var posInit: nat := 0;
    var cur: Path := [];
    var more := true;
    attempted := [];
    ghost var rest := Walk(dir, 0, []);
    while more
      invariant posInit <= |dir|
      invariant attempted + rest == Walk(dir, 0, [])
      invariant more ==> rest == Walk(dir, posInit, cur)
      invariant !more ==> rest == []
      invariant forall i :: 0 <= i < |attempted| ==> Tolerated(mkdir(attempted[i]))
      decreases |dir| - posInit, more
    {
      var found := Find(dir, posInit);
      var token: Path;
      match found {
        case None =>
          token := dir[posInit..];
          more := false;
        case Some(k) =>
          token := dir[posInit..k];
          posInit := k + 1;
      }
      cur := Extend(cur, token);
      assert rest[0] == cur;
      attempted, rest := attempted + [cur], rest[1..];
      if mkdir(cur) == Failed {
        ok := false;
        Conclude(dir, mkdir, ok, attempted, rest);
        return;
      }
    }
    ok := true;
    Conclude(dir, mkdir, ok, attempted, rest);
  }

  /** With a non-empty running path, the i-th running path is that path, '/', and the first i+1 tokens joined. */
  lemma {:induction false} ScanJoins(cur: Path, ts: seq<Path>, i: nat)
    requires cur != []
    requires i < |ts|
    ensures Scan(cur, ts)[i] == cur + "/" + Join(ts[..i + 1])
    decreases i
  {
    var c := Extend(cur, ts[0]);
    if i == 0 {
      assert ts[..1] == [ts[0]];
    } else {
      ScanJoins(c, ts[1..], i - 1);
      assert ts[1..][..i] == ts[..i + 1][1..];
      assert Join(ts[..i + 1]) == ts[0] + "/" + Join(ts[1..][..i]);
    }
  }

  /**
   Unless the path starts with '/', the i-th candidate is the first i+1 tokens
   joined back together.
   */
  lemma CandidateIsJoinedTokens(dir: Path, i: nat)
    requires dir == [] || dir[0] != '/'
    requires i < |Candidates(dir)|
    ensures Candidates(dir)[i] == Join(Split(dir)[..i + 1])
  {
    var ts := Split(dir);
    assert ts[0] != [] || dir == [] by {
      JoinedTokensArePrefixes(dir, 0);
      assert ts[..1] == [ts[0]];
    }
    if i == 0 {
      assert ts[..1] == [ts[0]];
    } else {
      ScanJoins(ts[0], ts[1..], i - 1);
      assert ts[1..][..i] == ts[..i + 1][1..];
    }
  }

  /**
   Unless the path starts with '/', the candidates are exactly the prefixes
   of the path that end just before one of its separators, shortest first,
   and finally the whole path: the i-th candidate is a prefix of `dir`
   holding i separators and followed by a separator or by the end of `dir`.
   They are the paths handed to mkdir as long as none of those calls fails.
   */
  lemma CandidatesArePrefixes(dir: Path, i: nat)
    requires dir == [] || dir[0] != '/'
    requires i < |Candidates(dir)|
    ensures var c := Candidates(dir)[i];
            && c <= dir
            && CountSlash(c) == i
            && (|c| == |dir| || dir[|c|] == '/')
  {
    CandidateIsJoinedTokens(dir, i);
    JoinedTokensArePrefixes(dir, i);
  }

  /** Unless the path starts with '/', the last candidate, the last path handed to mkdir when none fails, is the path itself. */
  lemma LastCandidateIsDir(dir: Path)
    requires dir == [] || dir[0] != '/'
    ensures Candidates(dir)[|Candidates(dir)| - 1] == dir
  {
    var n := |Candidates(dir)|;
    CandidateIsJoinedTokens(dir, n - 1);
    assert Split(dir)[..n] == Split(dir);
    JoinSplit(dir);
  }

  /**
   A leading '/' is not kept: the running path is still empty after the empty
   first token, so the first candidate is "" and the rest are those of the
   path without its leading separator.
   */
  lemma LeadingSlashDropped(rest: Path)
    ensures Candidates("/" + rest) == [[]] + Candidates(rest)
  {
    var dir := "/" + rest;
    assert Find(dir, 0) == Some(0);
    assert dir[1..] == rest;
    assert dir[..0] == [];
  }

  /** Each token yields one attempt: "a/b/c" makes "a", "a/b" and "a/b/c". */
  lemma CandidatesNested()
    ensures Candidates("a/b/c") == ["a", "a/b", "a/b/c"]
  {
    SplitSingle("c");
    assert "b" + "/" + "c" == "b/c";
    SplitCons("b", "c", ["c"]);
    assert "a" + "/" + "b/c" == "a/b/c";
    SplitCons("a", "b/c", ["b", "c"]);
    ScanCons([], "a", ["b", "c"]);
    ScanCons("a", "b", ["c"]);
    ScanCons("a/b", "c", []);
    assert "a" + "/" + "b" == "a/b";
    assert "a/b" + "/" + "c" == "a/b/c";
  }

  /**
   Empty tokens still cost an attempt each: a doubled separator makes
   "a//b" try "a", "a/" and "a//b"; a trailing one makes "a/" try "a" and
   "a/"; "" tries "" alone; and "/" tries "" twice, since the running path
   is still empty when its second token arrives.
   */
  lemma CandidatesEmptyTokens()
    ensures Candidates("a//b") == ["a", "a/", "a//b"]
    ensures Candidates("a/") == ["a", "a/"]
    ensures Candidates("") == [""]
    ensures Candidates("/") == ["", ""]
  {
    SplitSingle("b");
    assert "" + "/" + "b" == "/b";
    SplitCons("", "b", ["b"]);
    assert "a" + "/" + "/b" == "a//b";
    SplitCons("a", "/b", ["", "b"]);
    ScanCons([], "a", ["", "b"]);
    ScanCons("a", "", ["b"]);
    ScanCons("a/", "b", []);
    assert "a" + "/" + "" == "a/";
    assert "a/" + "/" + "b" == "a//b";
    SplitSingle("");
    SplitCons("a", "", [""]);
    ScanCons([], "a", [""]);
    ScanCons("a", "", []);
    ScanCons([], "", []);
    LeadingSlashDropped("");
    assert "/" + "" == "/";
  }
}
