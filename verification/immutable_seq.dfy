/**
 * The Immutable.js List and keyed-Seq operations that range deletion is built
 * from, on Dafny sequences. Immutable's `slice` clamps indices past the end,
 * and `shift`/`pop` of an empty list give the empty list; both are written out.
 */
module ImmutableSeq {
  import opened Nullable

  /** `list.slice(0, n)` (and JavaScript `String.prototype.slice(0, n)`) for n >= 0. */
  function Take<T>(s: seq<T>, n: nat): (r: seq<T>)
    ensures n <= |s| ==> r == s[..n]
    ensures n > |s| ==> r == s
  {
    if n <= |s| then s[..n] else s
  }

  /** `list.slice(n)` (and `String.prototype.slice(n)`) for n >= 0. */
  function Drop<T>(s: seq<T>, n: nat): (r: seq<T>)
    ensures n <= |s| ==> r == s[n..]
    ensures n > |s| ==> r == []
  {
    if n <= |s| then s[n..] else []
  }

  /** `list.shift()`: everything but the first element. */
  function Shift<T>(s: seq<T>): seq<T>
  {
    if |s| == 0 then [] else s[1..]
  }

  /** `list.pop()`: everything but the last element. */
  function Pop<T>(s: seq<T>): seq<T>
  {
    if |s| == 0 then [] else s[..|s| - 1]
  }

  /** `n` successive `shift()`s drop the first `n` elements. */
  function ShiftTimes<T>(s: seq<T>, n: nat): (r: seq<T>)
    ensures r == Drop(s, n)
    decreases n
  {
    if n == 0 then s else ShiftTimes(Shift(s), n - 1)
  }

  /** `n` successive `pop()`s keep all but the last `n` elements. */
  function PopTimes<T>(s: seq<T>, n: nat): (r: seq<T>)
    ensures n <= |s| ==> r == s[..|s| - n]
    ensures n > |s| ==> r == []
    decreases n
  {
    if n == 0 then s else PopTimes(Pop(s), n - 1)
  }

  /** `seq.reverse()`. */
  function Reverse<T>(s: seq<T>): (r: seq<T>)
    ensures |r| == |s|
    ensures forall q :: 0 <= q < |s| ==> r[q] == s[|s| - 1 - q]
  {
    if |s| == 0 then [] else Reverse(s[1..]) + [s[0]]
  }

  /** `seq.skipUntil(p)`: the suffix starting at the first element satisfying `p`. */
  function SkipUntil<T>(s: seq<T>, p: T -> bool): seq<T>
  {
    if |s| == 0 || p(s[0]) then s else SkipUntil(s[1..], p)
  }

  /** `seq.takeUntil(p)`: the prefix ending just before the first element satisfying `p`. */
  function TakeUntil<T>(s: seq<T>, p: T -> bool): seq<T>
  {
    if |s| == 0 || p(s[0]) then [] else [s[0]] + TakeUntil(s[1..], p)
  }

  /** `seq.first()`: the first element, or `undefined` for an empty sequence. */
  function First<T>(s: seq<T>): (r: Option<T>)
    ensures r.Some? <==> |s| > 0
    ensures |s| > 0 ==> r.value == s[0]
  {
    if |s| == 0 then None else Some(s[0])
  }

  /** `i` is the position of the first element of `s` that satisfies `p`. */
  ghost predicate FirstMatch<T>(s: seq<T>, p: T -> bool, i: nat)
  {
    i < |s| && p(s[i]) && forall q :: 0 <= q < i ==> !p(s[q])
  }

  lemma {:induction false} SkipUntilAt<T>(s: seq<T>, p: T -> bool, i: nat)
    requires FirstMatch(s, p, i)
    ensures SkipUntil(s, p) == s[i..]
    decreases i
  {
    if i > 0 {
      assert !p(s[0]);
      assert FirstMatch(s[1..], p, i - 1) by {
        forall q | 0 <= q < i - 1 ensures !p(s[1..][q]) {
          assert s[1..][q] == s[q + 1];
        }
      }
      SkipUntilAt(s[1..], p, i - 1);
      assert s[1..][i - 1..] == s[i..];
    }
  }

  lemma {:induction false} TakeUntilAt<T>(s: seq<T>, p: T -> bool, i: nat)
    requires FirstMatch(s, p, i)
    ensures TakeUntil(s, p) == s[..i]
    decreases i
  {
    if i > 0 {
      assert !p(s[0]);
      assert FirstMatch(s[1..], p, i - 1) by {
        forall q | 0 <= q < i - 1 ensures !p(s[1..][q]) {
          assert s[1..][q] == s[q + 1];
        }
      }
      TakeUntilAt(s[1..], p, i - 1);
      assert [s[0]] + s[1..][..i - 1] == s[..i];
    }
  }

  /** With no element satisfying `p`, `skipUntil` leaves nothing. */
  lemma {:induction false} SkipUntilNone<T>(s: seq<T>, p: T -> bool)
    requires forall q :: 0 <= q < |s| ==> !p(s[q])
    ensures SkipUntil(s, p) == []
    decreases |s|
  {
    if |s| > 0 {
      assert !p(s[0]);
      assert forall q :: 0 <= q < |s| - 1 ==> s[1..][q] == s[q + 1];
      SkipUntilNone(s[1..], p);
    }
  }
}
