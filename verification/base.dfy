/** Small shared datatypes: an optional value, and the outcome of a JavaScript
    computation that either returns a value or stops with a TypeError (a
    property read on `undefined`, a string method called on an object). */
module Base {

  datatype Option<+T> = None | Some(value: T) {

    /** Returns the value held in Some, or `default` when None. */
    function GetOr(default: T): T {
      match this
      case Some(v) => v
      case None => default
    }
  }

  /** `Throws` stands for a TypeError raised at run time; callers of the
      modelled code never catch it, so it aborts the whole handler. */
  datatype Outcome<+T> = Returns(value: T) | Throws

  /** Concatenation regroups freely; stated once so that proofs about
      accumulated sequences need not rediscover it. */
  lemma Assoc<T>(a: seq<T>, b: seq<T>, c: seq<T>)
    ensures (a + b) + c == a + (b + c)
  {
  }

  /** Replacing the first element. */
  lemma UpdateHead<T>(s: seq<T>, x: T)
    requires |s| > 0
    ensures s[0 := x] == [x] + s[1..]
  {
  }

  /** Replacing a later element is replacing it in the tail. */
  lemma UpdateTail<T>(s: seq<T>, x: T, k: nat)
    requires 0 < k < |s|
    ensures s[k := x] == [s[0]] + s[1..][k - 1 := x]
  {
  }

  /** A prefix of a prefix is a prefix. */
  lemma PrefixTrans<T>(a: seq<T>, b: seq<T>, c: seq<T>)
    requires |b| <= |a| && a[..|b|] == b && |c| <= |b| && b[..|c|] == c
    ensures |c| <= |a| && a[..|c|] == c
  {
    assert a[..|c|] == a[..|b|][..|c|];
  }
}
