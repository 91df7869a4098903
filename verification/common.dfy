/**
 Shared vocabulary of the FAT filesystem wrapper model: paths, an optional
 value standing in for C's null pointers, and the shape of a sequence of
 native calls that is abandoned at the first failure.
 */
module Common {

  /** A path as the wrapper handles it: plain characters, '/' as separator, no normalisation. */
  type Path = seq<char>

  /** Some value, or the null pointer / npos the C++ code would return instead. */
  datatype Option<+T> = None | Some(value: T)

  /**
   `attempts` is what a caller observes when it issues the calls in `planned`
   one by one, in order, and gives up at the first call that `good` rejects:
   the attempts are a prefix of the plan, every attempt but the last went
   through, and `ok` says whether the whole plan was carried out.
   */
  predicate StopsAtFirstFailure<T(==)>(ok: bool, attempts: seq<T>, planned: seq<T>, good: T -> bool)
  {
    && attempts <= planned
    && (forall i :: 0 <= i < |attempts| - 1 ==> good(attempts[i]))
    && (ok ==> attempts == planned && forall i :: 0 <= i < |attempts| ==> good(attempts[i]))
    && (!ok ==> |attempts| > 0 && !good(attempts[|attempts| - 1]))
  }

  /** The verdict of such a walk is decided by the plan alone: it succeeds iff every planned call is good. */
  lemma StopsAtFirstFailureVerdict<T>(ok: bool, attempts: seq<T>, planned: seq<T>, good: T -> bool)
    requires StopsAtFirstFailure(ok, attempts, planned, good)
    ensures ok <==> forall i :: 0 <= i < |planned| ==> good(planned[i])
  {
    if !ok {
      var k := |attempts| - 1;
      assert planned[k] == attempts[k];
    }
  }

  /** The attempts themselves are determined by the plan: two observations of the same walk agree. */
  lemma StopsAtFirstFailureUnique<T>(ok1: bool, a1: seq<T>, ok2: bool, a2: seq<T>, planned: seq<T>, good: T -> bool)
    requires StopsAtFirstFailure(ok1, a1, planned, good)
    requires StopsAtFirstFailure(ok2, a2, planned, good)
    ensures ok1 == ok2 && a1 == a2
  {
    StopsAtFirstFailureVerdict(ok1, a1, planned, good);
    StopsAtFirstFailureVerdict(ok2, a2, planned, good);
    if !ok1 {
      // Both stop at the first bad planned call, so both have the same length.
      var k1 := |a1| - 1;
      var k2 := |a2| - 1;
      assert planned[k1] == a1[k1];
      assert planned[k2] == a2[k2];
    }
  }

  /** A walk that went through, followed by a walk over a further plan, is a walk over the joined plan. */
  lemma StopsAtFirstFailureAppend<T>(attempts: seq<T>, planned: seq<T>, more: seq<T>, ok': bool, attempts': seq<T>, good: T -> bool)
    requires StopsAtFirstFailure(true, attempts, planned, good)
    requires StopsAtFirstFailure(ok', attempts', more, good)
    ensures StopsAtFirstFailure(ok', attempts + attempts', planned + more, good)
  {
    var all := attempts + attempts';
    assert forall i :: 0 <= i < |attempts| ==> all[i] == attempts[i];
    assert forall i :: |attempts| <= i < |all| ==> all[i] == attempts'[i - |attempts|];
  }
}
