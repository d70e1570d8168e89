/** Shared value types: optional values, failures that the source raises as
    exceptions, calendar timestamps and bytes. */
module Base {

  datatype Option<+T> = None | Some(value: T)

  /** An operation either returns a value or raises; `Raised` names the cause. */
  datatype Result<+T> = Ok(value: T) | Raised(cause: string)

  type byte = bv8

  /** A naive calendar timestamp (Python's datetime without tzinfo). */
  datatype DateTime = DateTime(year: int, month: int, day: int, hour: int, minute: int, second: int)

  /** Sum of a sequence of naturals. */
  function Sum(s: seq<nat>): nat
  {
    if s == [] then 0 else Sum(s[..|s| - 1]) + s[|s| - 1]
  }

  lemma {:induction false} SumAppend(a: seq<nat>, b: seq<nat>)
    ensures Sum(a + b) == Sum(a) + Sum(b)
    decreases |b|
  {
    if b == [] {
      assert a + b == a;
    } else {
      assert (a + b)[..|a + b| - 1] == a + b[..|b| - 1];
      SumAppend(a, b[..|b| - 1]);
    }
  }

  /** Adjacent slices join, also in front of a tail. */
  lemma SliceJoin<T>(s: seq<T>, a: nat, b: nat, c: nat, t: seq<T>)
    requires a <= b <= c <= |s|
    ensures s[a..b] + s[b..c] == s[a..c]
    ensures s[a..b] + (s[b..c] + t) == s[a..c] + t
  {
    assert s[a..b] + (s[b..c] + t) == (s[a..b] + s[b..c]) + t;
  }

  /** Adding one to every term adds the length to the sum. */
  lemma {:induction false} SumShift(a: seq<nat>, b: seq<nat>)
    requires |a| == |b| && forall i :: 0 <= i < |a| ==> b[i] == a[i] + 1
    ensures Sum(a) + |a| == Sum(b)
  {
    if a != [] {
      SumShift(a[..|a| - 1], b[..|b| - 1]);
    }
  }
}
