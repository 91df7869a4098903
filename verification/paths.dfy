/**
 Splitting a path on '/' the way CreateFatDirectory does it with
 std::string::find and substr, and the inverse join.
 */
module PathSplit {
  import opened Common

  /** Number of separators in `s`. */
  function CountSlash(s: Path): nat
  {
    if s == [] then 0 else (if s[0] == '/' then 1 else 0) + CountSlash(s[1..])
  }

  lemma {:induction false} CountSlashAppend(a: Path, b: Path)
    ensures CountSlash(a + b) == CountSlash(a) + CountSlash(b)
  {
    if a != [] {
      assert a + b != [];
      assert (a + b)[0] == a[0];
      assert (a + b)[1..] == a[1..] + b;
      CountSlashAppend(a[1..], b);
    } else {
      assert a + b == b;
    }
  }

  lemma {:induction false} CountSlashZero(s: Path)
    ensures CountSlash(s) == 0 <==> '/' !in s
  {
    if s != [] {
      CountSlashZero(s[1..]);
      assert s == [s[0]] + s[1..];
    }
  }

  /**
   The first separator at or after `from`, as `dir.find('/', from)`;
   None stands for npos.
   */
  function Find(s: Path, from: nat): (r: Option<nat>)
    requires from <= |s|
    ensures r.Some? ==> from <= r.value < |s| && s[r.value] == '/'
    decreases |s| - from
  {
    if from == |s| then None
    else if s[from] == '/' then Some(from)
    else Find(s, from + 1)
  }

  /** Find gives the first separator: none lies between `from` and the one found, or after `from` at all when none is found. */
  lemma {:induction false} FindIsFirst(s: Path, from: nat)
    requires from <= |s|
    ensures Find(s, from).Some? ==> '/' !in s[from..Find(s, from).value]
    ensures Find(s, from).None? ==> '/' !in s[from..]
    decreases |s| - from
  {
    if from < |s| && s[from] != '/' {
      FindIsFirst(s, from + 1);
      assert s[from..] == [s[from]] + s[from + 1..];
      var r := Find(s, from + 1);
      if r.Some? {
        assert s[from..r.value] == [s[from]] + s[from + 1..r.value];
      }
    }
  }

  /** A position `j` with no separator between `from` and it, holding one or at the end, is what Find reports. */
  lemma {:induction false} FindReaches(s: Path, from: nat, j: nat)
    requires from <= j <= |s|
    requires '/' !in s[from..j]
    requires j == |s| || s[j] == '/'
    ensures Find(s, from) == if j == |s| then None else Some(j)
    decreases j - from
  {
    if from < j {
      assert s[from..j][0] == s[from];
      assert s[from + 1..j] == s[from..j][1..];
      FindReaches(s, from + 1, j);
    }
  }

  /** Searching a suffix finds the same separator, shifted. */
  lemma FindSuffix(s: Path, from: nat)
    requires from <= |s|
    ensures Find(s[from..], 0) == (match Find(s, from) case None => None case Some(k) => Some(k - from))
  {
    var r := Find(s, from);
    var t := Find(s[from..], 0);
    FindIsFirst(s, from);
    FindIsFirst(s[from..], 0);
    assert s[from..][0..] == s[from..];
    if r.Some? {
      assert s[from..][..r.value - from] == s[from..r.value];
      assert s[from..][r.value - from] == '/';
    }
  }

  /**
   The tokens between separators, in order, as the CreateFatDirectory loop
   produces them: a token may be empty (leading, trailing or doubled '/').
   */
  function Split(s: Path): (ts: seq<Path>)
    ensures |ts| == CountSlash(s) + 1
    decreases |s|
  {
    FindIsFirst(s, 0);
    assert s[0..] == s;
    match Find(s, 0)
    case None =>
      CountSlashZero(s);
      [s]
    case Some(k) =>
      assert s[0..k] == s[..k];
      assert s == s[..k] + ([s[k]] + s[k + 1..]);
      CountSlashAppend(s[..k], [s[k]] + s[k + 1..]);
      CountSlashAppend([s[k]], s[k + 1..]);
      CountSlashZero(s[..k]);
      [s[..k]] + Split(s[k + 1..])
  }

  /** No token holds a separator: each one is cut just before the next '/' or at the end. */
  lemma {:induction false} SplitTokensHaveNoSeparator(s: Path)
    ensures forall i :: 0 <= i < |Split(s)| ==> '/' !in Split(s)[i]
    decreases |s|
  {
    FindIsFirst(s, 0);
    assert s[0..] == s;
    match Find(s, 0)
    case None =>
    case Some(k) =>
      SplitTokensHaveNoSeparator(s[k + 1..]);
      assert s[0..k] == s[..k];
  }

  /** With no separator left after `from`, the rest of the path is one token. */
  lemma SplitLast(s: Path, from: nat)
    requires from <= |s|
    requires Find(s, from).None?
    ensures Split(s[from..]) == [s[from..]]
  {
    FindSuffix(s, from);
  }

  /** With the next separator at `k`, the rest of the path splits into the token before it and the split of what follows. */
  lemma SplitAt(s: Path, from: nat, k: nat)
    requires from <= |s|
    requires Find(s, from) == Some(k)
    ensures Split(s[from..]) == [s[from..k]] + Split(s[k + 1..])
  {
    var t := s[from..];
    FindSuffix(s, from);
    assert Find(t, 0) == Some(k - from);
    assert t[..k - from] == s[from..k];
    assert t[k - from + 1..] == s[k + 1..];
    assert Split(t) == [t[..k - from]] + Split(t[k - from + 1..]);
  }

  /** Tokens glued back together with '/' between them. */
  function Join(ts: seq<Path>): Path
  {
    if |ts| == 0 then []
    else if |ts| == 1 then ts[0]
    else ts[0] + "/" + Join(ts[1..])
  }

  /** Joining what was split gives the path back. */
  lemma {:induction false} JoinSplit(s: Path)
    ensures Join(Split(s)) == s
    decreases |s|
  {
    match Find(s, 0)
    case None =>
    case Some(k) =>
      JoinSplit(s[k + 1..]);
      assert s == s[..k] + "/" + s[k + 1..];
  }

  /** Splitting what was joined gives the tokens back, as long as no token holds a separator. */
  lemma {:induction false} SplitJoin(ts: seq<Path>)
    requires |ts| > 0
    requires forall i :: 0 <= i < |ts| ==> '/' !in ts[i]
    ensures Split(Join(ts)) == ts
  {
    if |ts| == 1 {
      SplitSingle(ts[0]);
    } else {
      SplitJoin(ts[1..]);
      SplitCons(ts[0], Join(ts[1..]), ts[1..]);
      assert ts == [ts[0]] + ts[1..];
    }
  }

  /** A path without a separator is a single token. */
  lemma SplitSingle(s: Path)
    requires '/' !in s
    ensures Split(s) == [s]
  {
    assert s[0..] == s;
  }

  /** A separator-free head, a separator, then a tail: the head is the first token and the tail's tokens follow. */
  lemma SplitCons(head: Path, tail: Path, rest: seq<Path>)
    requires '/' !in head
    requires Split(tail) == rest
    ensures Split(head + "/" + tail) == [head] + rest
  {
    var s := head + "/" + tail;
    assert s[0..|head|] == s[..|head|] == head;
    FindReaches(s, 0, |head|);
    assert s[|head| + 1..] == tail;
  }

  /** Putting the head of `s` up to a separator at `k` in front of a separator-delimited prefix of the rest. */
  lemma PrefixAfterSeparator(s: Path, k: nat, q: Path)
    requires k < |s| && s[k] == '/' && '/' !in s[..k]
    requires q <= s[k + 1..]
    requires |q| == |s| - k - 1 || s[k + 1..][|q|] == '/'
    ensures var p := s[..k] + "/" + q;
            && p <= s
            && CountSlash(p) == CountSlash(q) + 1
            && (|p| == |s| || s[|p|] == '/')
  {
    var p := s[..k] + "/" + q;
    assert p == s[..k + 1] + q;
    assert s == s[..k + 1] + s[k + 1..];
    CountSlashAppend(s[..k] + "/", q);
    CountSlashAppend(s[..k], "/");
    CountSlashZero(s[..k]);
  }

  /**
   Joining the first i+1 tokens gives the prefix of `s` that ends just before
   its (i+1)-th separator (or the whole of `s` after the last one).
   */
  lemma {:induction false} JoinedTokensArePrefixes(s: Path, i: nat)
    requires i < |Split(s)|
    ensures var p := Join(Split(s)[..i + 1]);
            && p <= s
            && CountSlash(p) == i
            && (|p| == |s| || s[|p|] == '/')
    decreases |s|, 1
  {
    match Find(s, 0)
    case None =>
      FindIsFirst(s, 0);
      assert s[0..] == s;
      assert Split(s)[..1] == [s];
      CountSlashZero(s);
    case Some(k) =>
      if i == 0 {
        FirstTokenIsPrefix(s, k);
      } else {
        JoinedTokensStep(s, k, i);
      }
  }

  /** The first token is the part of `s` before its first separator. */
  lemma FirstTokenIsPrefix(s: Path, k: nat)
    requires Find(s, 0) == Some(k)
    ensures var p := Join(Split(s)[..1]);
            && p <= s
            && CountSlash(p) == 0
            && (|p| == |s| || s[|p|] == '/')
  {
    FindIsFirst(s, 0);
    assert s[0..k] == s[..k];
    assert Split(s)[..1] == [s[..k]];
    CountSlashZero(s[..k]);
  }

  /** The inductive step: after the first separator at `k`, the prefixes of the rest give those of `s`, one separator longer. */
  lemma {:induction false} JoinedTokensStep(s: Path, k: nat, i: nat)
    requires Find(s, 0) == Some(k)
    requires 0 < i < |Split(s)|
    ensures var p := Join(Split(s)[..i + 1]);
            && p <= s
            && CountSlash(p) == i
            && (|p| == |s| || s[|p|] == '/')
    decreases |s|, 0
  {
    var rest := s[k + 1..];
    FindIsFirst(s, 0);
    assert s[0..k] == s[..k];
    assert Split(s) == [s[..k]] + Split(rest);
    JoinedTokensArePrefixes(rest, i - 1);
    JoinPrefixCons(s[..k], Split(rest), i);
    PrefixAfterSeparator(s, k, Join(Split(rest)[..i]));
  }

  /** Joining a prefix of at least two tokens puts the first token and '/' in front of joining the others. */
  lemma JoinPrefixCons(head: Path, ts: seq<Path>, i: nat)
    requires 0 < i <= |ts|
    ensures Join(([head] + ts)[..i + 1]) == head + "/" + Join(ts[..i])
  {
    var us := ([head] + ts)[..i + 1];
    assert us[0] == head;
    assert us[1..] == ts[..i];
  }
}
