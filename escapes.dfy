/**
 * Global replacement of a two-character sequence by one character, as done
 * by `s.replace(/ab/g, "c")`: the text is scanned left to right and each
 * match is consumed before the scan goes on, so matches never overlap.
 * The text utilities use it twice: to turn the escape backslash-`n` into a
 * real newline before wrapping, and to turn backslash-quote into a quote.
 */
module Escapes {
  import opened Strings

  /** The pair `a`,`b` starts at index `k` of `s`. */
  predicate PairAt(s: string, k: int, a: char, b: char) {
    0 <= k && k + 1 < |s| && s[k] == a && s[k + 1] == b
  }

  /** Number of indices at which the pair `a`,`b` starts (overlapping or not). */
  function Occurrences(s: string, a: char, b: char): nat
    decreases |s|
  {
    if |s| == 0 then 0
    else (if PairAt(s, 0, a, b) then 1 else 0) + Occurrences(s[1..], a, b)
  }

  /** Left-to-right, non-overlapping replacement of every `a`,`b` pair by `c`. */
  function ReplacePair(s: string, a: char, b: char, c: char): (r: string)
    ensures |r| <= |s|
    ensures forall ch :: ch in r ==> ch in s || ch == c
    decreases |s|
  {
    if |s| == 0 then []
    else if PairAt(s, 0, a, b) then [c] + ReplacePair(s[2..], a, b, c)
    else [s[0]] + ReplacePair(s[1..], a, b, c)
  }

  /** Each pair found by the scan shortens the text by exactly one character. */
  lemma {:induction false} ReplacePairLength(s: string, a: char, b: char, c: char)
    requires a != b
    ensures |ReplacePair(s, a, b, c)| == |s| - Occurrences(s, a, b)
    decreases |s|
  {
    if |s| == 0 {
    } else if PairAt(s, 0, a, b) {
      // s[1] == b != a, so no pair starts at index 1
      assert !PairAt(s[1..], 0, a, b);
      assert s[1..][1..] == s[2..];
      ReplacePairLength(s[2..], a, b, c);
    } else {
      ReplacePairLength(s[1..], a, b, c);
    }
  }

  /** A text without the pair is returned unchanged. */
  lemma {:induction false} ReplacePairIdentity(s: string, a: char, b: char, c: char)
    requires forall k :: !PairAt(s, k, a, b)
    ensures ReplacePair(s, a, b, c) == s
    decreases |s|
  {
    if |s| > 0 {
      assert !PairAt(s, 0, a, b);
      forall k ensures !PairAt(s[1..], k, a, b) {
        assert !PairAt(s, k + 1, a, b);
      }
      ReplacePairIdentity(s[1..], a, b, c);
    }
  }

  /**
   * When the replacement character is neither half of the pair, no pair is
   * left in the result: every escape in the input is consumed.
   */
  lemma {:induction false} ReplacePairExhaustive(s: string, a: char, b: char, c: char)
    requires c != a && c != b
    ensures forall k :: !PairAt(ReplacePair(s, a, b, c), k, a, b)
    decreases |s|
  {
    if |s| > 0 {
      var r := ReplacePair(s, a, b, c);
      if PairAt(s, 0, a, b) {
        var rest := ReplacePair(s[2..], a, b, c);
        ReplacePairExhaustive(s[2..], a, b, c);
        assert r == [c] + rest;
        forall k ensures !PairAt(r, k, a, b) {
          if k >= 1 { assert !PairAt(rest, k - 1, a, b); }
        }
      } else {
        var rest := ReplacePair(s[1..], a, b, c);
        ReplacePairExhaustive(s[1..], a, b, c);
        assert r == [s[0]] + rest;
        forall k ensures !PairAt(r, k, a, b) {
          if k >= 1 {
            assert !PairAt(rest, k - 1, a, b);
          } else if PairAt(r, 0, a, b) {
            // r[0] == s[0] == a and the pair was not at index 0 of s, so s[1] != b
            assert |s| >= 2 && s[1] != b;
            ReplacePairHead(s[1..], a, b, c);
            assert false;
          }
        }
      }
    }
  }

  /** The first character of a replacement result is `c` or the first input character. */
  lemma ReplacePairHead(s: string, a: char, b: char, c: char)
    requires |s| > 0
    ensures |ReplacePair(s, a, b, c)| > 0
    ensures ReplacePair(s, a, b, c)[0] == (if PairAt(s, 0, a, b) then c else s[0])
  {
  }

  /** Turns each backslash-`n` escape into a newline character. */
  function UnescapeNewlines(s: string): (r: string)
    ensures forall k :: !PairAt(r, k, '\\', 'n')
    ensures |r| == |s| - Occurrences(s, '\\', 'n')
  {
    ReplacePairExhaustive(s, '\\', 'n', '\n');
    ReplacePairLength(s, '\\', 'n', '\n');
    ReplacePair(s, '\\', 'n', '\n')
  }

  /** Replaces every escaped double quote (backslash, quote) by a plain double quote. */
  function UnescapeString(s: string): (r: string)
    ensures |r| == |s| - Occurrences(s, '\\', '"')
  {
    ReplacePairLength(s, '\\', '"', '"');
    ReplacePair(s, '\\', '"', '"')
  }

  /** A text with no escaped double quote is returned unchanged. */
  lemma UnescapeStringUnchanged(s: string)
    requires forall k :: !PairAt(s, k, '\\', '"')
    ensures UnescapeString(s) == s
  {
    ReplacePairIdentity(s, '\\', '"', '"');
  }

  /**
   * Unescaping keeps every double quote and removes exactly one backslash
   * per escaped quote.
   */
  lemma {:induction false} UnescapeStringCounts(s: string)
    ensures CountChar(UnescapeString(s), '"') == CountChar(s, '"')
    ensures CountChar(UnescapeString(s), '\\') == CountChar(s, '\\') - Occurrences(s, '\\', '"')
    decreases |s|
  {
    var r := UnescapeString(s);
    if |s| == 0 {
    } else if PairAt(s, 0, '\\', '"') {
      var rest := ReplacePair(s[2..], '\\', '"', '"');
      UnescapeStringCounts(s[2..]);
      assert r == ['"'] + rest;
      CountCharAppend(['"'], rest, '"');
      CountCharAppend(['"'], rest, '\\');
      assert s == s[..2] + s[2..];
      CountCharAppend(s[..2], s[2..], '"');
      CountCharAppend(s[..2], s[2..], '\\');
      assert !PairAt(s[1..], 0, '\\', '"');
      assert s[1..][1..] == s[2..];
    } else {
      var rest := ReplacePair(s[1..], '\\', '"', '"');
      UnescapeStringCounts(s[1..]);
      assert r == [s[0]] + rest;
      CountCharAppend([s[0]], rest, '"');
      CountCharAppend([s[0]], rest, '\\');
    }
  }
}
