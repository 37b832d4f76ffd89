/**
 * String helpers that the text utilities rely on: the behaviour of
 * JavaScript's `String.prototype.lastIndexOf` for a one-character needle,
 * character counting, splitting a suffix into consecutive slices, and the
 * regrouping identities of concatenation (`Regroup`, `ConcatTail`,
 * `AppendAssoc`, `SplitHead`) that the proofs about collapsing tabs and
 * newlines use as steps.
 */
module Strings {

  /** Index of the last occurrence of `c` in `s`, or -1 when `c` does not occur. */
  function LastIndexOf(s: string, c: char): (r: int)
    ensures -1 <= r < |s|
    ensures r >= 0 ==> s[r] == c
    ensures forall k :: r < k < |s| ==> s[k] != c
    decreases |s|
  {
    if |s| == 0 then -1
    else if s[|s| - 1] == c then |s| - 1
    else LastIndexOf(s[..|s| - 1], c)
  }

  /** Number of occurrences of `c` in `s`. */
  function CountChar(s: string, c: char): nat
    decreases |s|
  {
    if |s| == 0 then 0 else (if s[0] == c then 1 else 0) + CountChar(s[1..], c)
  }

  lemma {:induction false} CountCharAppend(s: string, t: string, c: char)
    ensures CountChar(s + t, c) == CountChar(s, c) + CountChar(t, c)
    decreases |s|
  {
    if |s| > 0 {
      assert (s + t)[1..] == s[1..] + t;
      CountCharAppend(s[1..], t, c);
    } else {
      assert s + t == t;
    }
  }

  /** A suffix of `s` is the concatenation of three consecutive slices. */
  lemma SplitSuffix<T>(s: seq<T>, i: nat, j: nat, k: nat)
    requires i <= j <= k <= |s|
    ensures s[i..] == s[i..j] + s[j..k] + s[k..]
  {
    assert s[i..] == s[i..j] + s[j..];
    assert s[j..] == s[j..k] + s[k..];
  }

  /** Concatenation regrouped: a head in front of three parts. */
  lemma Regroup<T>(h: seq<T>, a: seq<T>, g: seq<T>, b: seq<T>)
    ensures h + (a + g + b) == (h + a) + g + b
  {
  }

  /** The head and the tail of a concatenation whose first part is not empty. */
  lemma ConcatTail<T>(a: seq<T>, b: seq<T>)
    requires |a| > 0
    ensures (a + b)[0] == a[0] && (a + b)[1..] == a[1..] + b
  {
  }

  /** Concatenation is associative. */
  lemma AppendAssoc<T>(a: seq<T>, b: seq<T>, c: seq<T>)
    ensures (a + b) + c == a + (b + c)
  {
  }

  /** A concatenation of three parts whose first part is not empty, split after its first element. */
  lemma SplitHead<T>(a: seq<T>, b: seq<T>, c: seq<T>)
    requires |a| > 0
    ensures a == [a[0]] + a[1..]
    ensures a + b + c == [a[0]] + (a[1..] + b + c)
  {
    assert a == [a[0]] + a[1..];
  }
}
