/**
 * The greedy line breaker of the text utilities (`wrap`).
 *
 * The text is first normalised: every run of tabs and newlines becomes one
 * space, then every backslash-`n` escape becomes a real newline. The
 * normalised text is then scanned once, character by character, with a
 * counter: a newline always ends the current line and resets the counter;
 * a character that finds the counter at (or above) the maximum ends the
 * current line at the last space before it (dropping that space and
 * restarting the counter at 0) or, when the current line has no space,
 * right before it (keeping it and restarting the counter at 1). The end of
 * the text always emits the line in progress, even when it is empty.
 *
 * `Wrap` is that scan; `Lines` is its specification, stated one line at a
 * time; the lemmas below state what the lines are.
 */
module Wrapping {
  import opened Strings
  import opened Escapes

  /** A separator that may sit between two consecutive wrapped lines. */
  predicate IsSeparator(g: string) {
    g == "" || g == " " || g == "\n"
  }

  /** `lines[0] + gaps[0] + lines[1] + ... + gaps[n-2] + lines[n-1]`. */
  function Interleave(lines: seq<string>, gaps: seq<string>): string
    requires |gaps| + 1 == |lines|
    decreases |lines|
  {
    if |lines| == 1 then lines[0]
    else lines[0] + gaps[0] + Interleave(lines[1..], gaps[1..])
  }

  predicate IsTabOrNewline(ch: char) {
    ch == '\t' || ch == '\n'
  }

  /** `s` without its leading run of tabs and newlines. */
  function SkipTabsAndNewlines(s: string): (r: string)
    ensures |r| <= |s|
    ensures |r| > 0 ==> r[|r| - 1] == s[|s| - 1]
    ensures forall k :: 0 <= k < |s| - |r| ==> IsTabOrNewline(s[k])
    ensures |r| > 0 ==> !IsTabOrNewline(r[0])
    decreases |s|
  {
    if |s| > 0 && IsTabOrNewline(s[0]) then SkipTabsAndNewlines(s[1..]) else s
  }

  /** What is left after the leading run is exactly the rest of `s`. */
  lemma {:induction false} SkipTabsAndNewlinesIsSuffix(s: string)
    ensures SkipTabsAndNewlines(s) == s[|s| - |SkipTabsAndNewlines(s)|..]
    decreases |s|
  {
    if |s| > 0 && IsTabOrNewline(s[0]) {
      SkipTabsAndNewlinesIsSuffix(s[1..]);
      assert s[1..][|s| - 1 - |SkipTabsAndNewlines(s[1..])|..] == s[|s| - |SkipTabsAndNewlines(s)|..];
    }
  }

  /** Every maximal run of tabs and newlines replaced by a single space. */
  function CollapseTabsAndNewlines(s: string): (r: string)
    ensures |r| <= |s|
    ensures forall k :: 0 <= k < |r| ==> !IsTabOrNewline(r[k])
    decreases |s|
  {
    if |s| == 0 then []
    else if IsTabOrNewline(s[0]) then [' '] + CollapseTabsAndNewlines(SkipTabsAndNewlines(s[1..]))
    else [s[0]] + CollapseTabsAndNewlines(s[1..])
  }

  /** Collapsing introduces no character other than the space. */
  lemma {:induction false} CollapseKeepsCharacters(s: string)
    ensures forall ch :: ch in CollapseTabsAndNewlines(s) ==> ch in s || ch == ' '
    decreases |s|
  {
    if |s| > 0 {
      if IsTabOrNewline(s[0]) {
        var rest := SkipTabsAndNewlines(s[1..]);
        SkipTabsAndNewlinesIsSuffix(s[1..]);
        CollapseKeepsCharacters(rest);
        assert forall ch :: ch in rest ==> ch in s[1..];
      } else {
        CollapseKeepsCharacters(s[1..]);
      }
    }
  }

  /** A text without tabs and newlines is left as it is. */
  lemma {:induction false} CollapseIdentity(s: string)
    requires forall ch :: ch in s ==> !IsTabOrNewline(ch)
    ensures CollapseTabsAndNewlines(s) == s
    decreases |s|
  {
    if |s| > 0 {
      assert s[0] in s;
      assert forall ch :: ch in s[1..] ==> ch in s;
      CollapseIdentity(s[1..]);
    }
  }

  /** Skipping a run of tabs and newlines stops at the first other character. */
  lemma {:induction false} SkipRun(w: string, y: string)
    requires forall k :: 0 <= k < |w| ==> IsTabOrNewline(w[k])
    requires |y| == 0 || !IsTabOrNewline(y[0])
    ensures SkipTabsAndNewlines(w + y) == y
    decreases |w|
  {
    if |w| == 0 {
      assert w + y == y;
    } else {
      assert (w + y)[1..] == w[1..] + y;
      SkipRun(w[1..], y);
    }
  }

  /** Once the skip stops inside `u`, what follows `u` is kept as it is. */
  lemma {:induction false} SkipWithinPrefix(u: string, v: string)
    requires |SkipTabsAndNewlines(u)| > 0
    ensures SkipTabsAndNewlines(u + v) == SkipTabsAndNewlines(u) + v
    decreases |u|
  {
    if IsTabOrNewline(u[0]) {
      assert (u + v)[1..] == u[1..] + v;
      SkipWithinPrefix(u[1..], v);
    }
  }

  /**
   * A maximal run `w` of tabs and newlines becomes exactly one space, and
   * the text on either side of it is collapsed on its own: `x` does not end
   * and `y` does not start with a tab or newline.
   */
  lemma {:induction false} CollapseRun(x: string, w: string, y: string)
    requires |w| > 0 && forall k :: 0 <= k < |w| ==> IsTabOrNewline(w[k])
    requires |x| == 0 || !IsTabOrNewline(x[|x| - 1])
    requires |y| == 0 || !IsTabOrNewline(y[0])
    ensures CollapseTabsAndNewlines(x + w + y)
         == CollapseTabsAndNewlines(x) + " " + CollapseTabsAndNewlines(y)
    decreases |x|
  {
    if |x| == 0 {
      assert x + w + y == w + y;
      CollapseRunFirst(w, y);
    } else if !IsTabOrNewline(x[0]) {
      CollapseRun(x[1..], w, y);
      CollapseRunAfterChar(x, w, y);
    } else {
      // x opens with its own run, which ends inside x because x ends with another character
      var x' := SkipTabsAndNewlines(x[1..]);
      assert |x'| > 0 && x'[|x'| - 1] == x[|x| - 1];
      CollapseRun(x', w, y);
      CollapseRunAfterRun(x, w, y);
    }
  }

  /** `CollapseRun` for an empty `x`. */
  lemma CollapseRunFirst(w: string, y: string)
    requires |w| > 0 && forall k :: 0 <= k < |w| ==> IsTabOrNewline(w[k])
    requires |y| == 0 || !IsTabOrNewline(y[0])
    ensures CollapseTabsAndNewlines(w + y) == " " + CollapseTabsAndNewlines(y)
  {
    ConcatTail(w, y);
    SkipRun(w[1..], y);
  }

  /** `CollapseRun` for an `x` that starts with another character, given it for `x[1..]`. */
  lemma CollapseRunAfterChar(x: string, w: string, y: string)
    requires |x| > 0 && !IsTabOrNewline(x[0])
    requires CollapseTabsAndNewlines(x[1..] + w + y)
          == CollapseTabsAndNewlines(x[1..]) + " " + CollapseTabsAndNewlines(y)
    ensures CollapseTabsAndNewlines(x + w + y)
         == CollapseTabsAndNewlines(x) + " " + CollapseTabsAndNewlines(y)
  {
    CollapseCons(x[0], x[1..] + w + y);
    CollapseCons(x[0], x[1..]);
    SplitHead(x, w, y);
    Regroup([x[0]], CollapseTabsAndNewlines(x[1..]), " ", CollapseTabsAndNewlines(y));
  }

  /** A character other than a tab or newline is kept by the collapsing step. */
  lemma CollapseCons(ch: char, s: string)
    requires !IsTabOrNewline(ch)
    ensures CollapseTabsAndNewlines([ch] + s) == [ch] + CollapseTabsAndNewlines(s)
  {
    assert ([ch] + s)[1..] == s;
  }

  /** A tab or newline opens a run, which becomes one space. */
  lemma CollapseConsRun(ch: char, s: string)
    requires IsTabOrNewline(ch)
    ensures CollapseTabsAndNewlines([ch] + s) == [' '] + CollapseTabsAndNewlines(SkipTabsAndNewlines(s))
  {
    assert ([ch] + s)[1..] == s;
  }

  /**
   * `CollapseRun` for an `x` that starts with a run of its own, given it for
   * the rest of `x` after that run.
   */
  lemma CollapseRunAfterRun(x: string, w: string, y: string)
    requires |x| > 0 && IsTabOrNewline(x[0]) && |SkipTabsAndNewlines(x[1..])| > 0
    requires var x' := SkipTabsAndNewlines(x[1..]);
      CollapseTabsAndNewlines(x' + w + y)
        == CollapseTabsAndNewlines(x') + " " + CollapseTabsAndNewlines(y)
    ensures CollapseTabsAndNewlines(x + w + y)
         == CollapseTabsAndNewlines(x) + " " + CollapseTabsAndNewlines(y)
  {
    var x' := SkipTabsAndNewlines(x[1..]);
    SplitHead(x, w, y);
    CollapseConsRun(x[0], x[1..] + w + y);
    CollapseConsRun(x[0], x[1..]);
    AppendAssoc(x[1..], w, y);
    SkipWithinPrefix(x[1..], w + y);
    AppendAssoc(x', w, y);
    Regroup([' '], CollapseTabsAndNewlines(x'), " ", CollapseTabsAndNewlines(y));
  }

  /** The text that is actually wrapped. */
  function Normalise(text: string): (t: string)
    ensures '\t' !in t
    ensures forall k :: !PairAt(t, k, '\\', 'n')
  {
    UnescapeNewlines(CollapseTabsAndNewlines(text))
  }

  /**
   * Index at which the scan, resumed at index `r` with the counter at `c`,
   * stops: the end of the text, a newline, or the first character that finds
   * the counter at `maxLength` or more (the counter grows by one per
   * character passed).
   */
  function StopAt(t: string, maxLength: int, r: nat, c: nat): (j: nat)
    requires r <= |t|
    ensures r <= j <= |t|
    ensures forall k :: r <= k < j ==> t[k] != '\n'
    ensures j > r ==> c + (j - 1 - r) < maxLength
    ensures j == |t| || t[j] == '\n' || c + (j - r) >= maxLength
    decreases |t| - r
  {
    if r == |t| || t[r] == '\n' || c >= maxLength then r
    else StopAt(t, maxLength, r + 1, c + 1)
  }

  /**
   * How the line in progress ends, seen from a state of the scan: it is the
   * last line, or it ends at `end` and the separator `gap` after it is
   * dropped; the next line begins at `next` and the scan resumes at
   * `resume` with the counter at `count`.
   */
  datatype Step = Last | Break(end: nat, gap: string, next: nat, resume: nat, count: nat)

  /**
   * The next step of the scan when the current line began at `start` and
   * the scan resumed at `r` with the counter at `c`: a newline ends the line
   * and restarts the counter at 0; a character that finds the counter full
   * ends the line at the last space since `start` (dropped, counter 0), or
   * right before that character when there is none (counter 1).
   */
  function NextStep(t: string, maxLength: int, start: nat, r: nat, c: nat): (st: Step)
    requires start <= r <= |t|
    ensures st.Last? ==> forall k :: r <= k < |t| ==> t[k] != '\n'
    ensures st.Break? ==> start <= st.end <= st.next <= st.resume <= |t| && r < st.resume
    ensures st.Break? ==> IsSeparator(st.gap) && st.next == st.end + |st.gap| && t[st.end..st.next] == st.gap
    ensures st.Break? ==> forall k :: r <= k < st.end ==> t[k] != '\n'
    ensures st.Break? && st.gap != "\n" ==> forall k :: r <= k < st.resume ==> t[k] != '\n'
    ensures st.Break? && st.gap == "\n" ==> st.next == st.resume
  {
    var j := StopAt(t, maxLength, r, c);
    if j == |t| then Last
    else if t[j] == '\n' then
      assert t[j..j + 1] == [t[j]];
      Break(j, "\n", j + 1, j + 1, 0)
    else
      var e := LastIndexOf(t[..j], ' ');
      if e < start then Break(j, "", j, j + 1, 1)
      else
        assert t[e..e + 1] == [t[..j][e]];
        Break(e, " ", e + 1, j + 1, 0)
  }

  /** The lines still to come from a state of the scan. */
  function LinesFrom(t: string, maxLength: int, start: nat, r: nat, c: nat): (lines: seq<string>)
    requires start <= r <= |t|
    ensures |lines| >= 1
    decreases |t| - r
  {
    match NextStep(t, maxLength, start, r, c)
    case Last => [t[start..]]
    case Break(end, _, next, resume, count) => [t[start..end]] + LinesFrom(t, maxLength, next, resume, count)
  }

  /** The lines the breaker makes of the normalised text `t`. */
  function Lines(t: string, maxLength: int): seq<string> {
    LinesFrom(t, maxLength, 0, 0, 0)
  }

  /**
   * Which step the scan takes, for every state: with `j` the index where the
   * scan stops, the line is the last one exactly when `j` is the end of the
   * text; a newline at `j` ends the line there; otherwise the character at
   * `j` found the counter full, and the line ends at the last space since
   * `start` (dropped, counter 0) or, when there is none, right before `j`
   * (counter 1, the scan resumes after `j`).
   */
  lemma NextStepChoice(t: string, maxLength: int, start: nat, r: nat, c: nat)
    requires start <= r <= |t|
    ensures var j := StopAt(t, maxLength, r, c);
      var st := NextStep(t, maxLength, start, r, c);
      && (st.Last? <==> j == |t|)
      && (j < |t| && t[j] == '\n' ==> st == Break(j, "\n", j + 1, j + 1, 0))
      && (j < |t| && t[j] != '\n' && ' ' !in t[start..j] ==> st == Break(j, "", j, j + 1, 1))
      && (j < |t| && t[j] != '\n' && ' ' in t[start..j] ==>
            && st.Break? && st.gap == " " && st.resume == j + 1 && st.count == 0
            && start <= st.end < j && t[st.end] == ' ' && ' ' !in t[st.end + 1..j])
  {
    var j := StopAt(t, maxLength, r, c);
    if j < |t| && t[j] != '\n' {
      var e := LastIndexOf(t[..j], ' ');
      if e < start {
        forall k | 0 <= k < j - start ensures t[start..j][k] != ' ' {
          assert t[start..j][k] == t[..j][start + k];
        }
      } else {
        assert t[e] == t[..j][e];
        var after := t[e + 1..j];
        forall k | 0 <= k < |after| ensures after[k] != ' ' {
          assert after[k] == t[..j][e + 1 + k];
        }
        assert t[start..j][e - start] == ' ';
      }
    }
  }

  /**
   * A line broken because a character found the counter full, from any
   * state of the scan (also after a soft break, where the counter restarts
   * at 0 with characters already on the line): when the line holds a space
   * before the stop index `j`, it ends right before the last such space;
   * otherwise it is everything up to `j`.
   */
  lemma OverflowBreak(t: string, maxLength: int, start: nat, r: nat, c: nat)
    requires start <= r <= |t|
    requires StopAt(t, maxLength, r, c) < |t| && t[StopAt(t, maxLength, r, c)] != '\n'
    ensures var j := StopAt(t, maxLength, r, c);
      var first := LinesFrom(t, maxLength, start, r, c)[0];
      && (' ' !in t[start..j] ==> first == t[start..j])
      && (' ' in t[start..j] ==>
            && |first| < j - start && first == t[start..start + |first|]
            && t[start + |first|] == ' ' && ' ' !in t[start + |first| + 1..j])
  {
    NextStepChoice(t, maxLength, start, r, c);
    var st := NextStep(t, maxLength, start, r, c);
    assert LinesFrom(t, maxLength, start, r, c)[0] == t[start..st.end];
  }

  /** The scan stops at the latest at an index `n` where it would have to stop. */
  lemma StopAtAtMost(t: string, maxLength: int, r: nat, c: nat, n: nat)
    requires r <= n <= |t|
    requires n == |t| || t[n] == '\n' || c + (n - r) >= maxLength
    ensures StopAt(t, maxLength, r, c) <= n
    decreases n - r
  {
    if r < n {
      StopAtAtMost(t, maxLength, r + 1, c + 1, n);
    }
  }

  /** A character that is not a newline and finds the counter below the maximum does not stop the scan. */
  lemma PassCharacter(t: string, maxLength: int, r: nat, c: nat, i: nat)
    requires r <= i < |t| && i <= StopAt(t, maxLength, r, c)
    requires t[i] != '\n' && c + (i - r) < maxLength
    ensures i + 1 <= StopAt(t, maxLength, r, c)
  {
  }

  /*
   * The three ways the scan emits a line. Each lemma takes the lines emitted
   * so far, which followed by `LinesFrom` of the current state make up all
   * the lines, and shows the same of the state after the emission.
   */

  /** At the end of the text the line in progress is the last line. */
  lemma EmitAtEnd(t: string, maxLength: int, lines: seq<string>, start: nat, r: nat, c: nat)
    requires start <= r <= |t| <= StopAt(t, maxLength, r, c)
    requires lines + LinesFrom(t, maxLength, start, r, c) == Lines(t, maxLength)
    ensures lines + [t[start..]] == Lines(t, maxLength)
  {
    assert NextStep(t, maxLength, start, r, c) == Last;
  }

  /** A newline `t[i]` ends the line; the next starts after it with the counter at 0. */
  lemma EmitAtNewline(t: string, maxLength: int, lines: seq<string>, start: nat, r: nat, c: nat, i: nat,
                      newStart: int, r': nat, c': nat)
    requires start <= r <= i < |t| && i <= StopAt(t, maxLength, r, c) && t[i] == '\n'
    requires lines + LinesFrom(t, maxLength, start, r, c) == Lines(t, maxLength)
    requires newStart == r' == i + 1 && c' == 0
    ensures (lines + [t[start..i]]) + LinesFrom(t, maxLength, newStart, r', c') == Lines(t, maxLength)
  {
    assert StopAt(t, maxLength, r, c) == i;
    assert NextStep(t, maxLength, start, r, c) == Break(i, "\n", newStart, r', c');
    var next := LinesFrom(t, maxLength, newStart, r', c');
    assert LinesFrom(t, maxLength, start, r, c) == [t[start..i]] + next;
    AppendAssoc(lines, [t[start..i]], next);
  }

  /**
   * A character `t[i]` that finds the counter full ends the line at `end`;
   * the next line starts at `newStart` and the scan resumes after `t[i]`
   * with the counter at `c'`.
   */
  lemma EmitAtOverflow(t: string, maxLength: int, lines: seq<string>, start: nat, r: nat, c: nat, i: nat,
                       end: int, newStart: int, r': nat, c': nat)
    requires start <= r <= i < |t| && i <= StopAt(t, maxLength, r, c)
    requires t[i] != '\n' && c + (i - r) >= maxLength
    requires lines + LinesFrom(t, maxLength, start, r, c) == Lines(t, maxLength)
    requires var e := LastIndexOf(t[..i], ' ');
      if e < start then end == i && newStart == i && r' == i + 1 && c' == 1
      else end == e && newStart == e + 1 && r' == i + 1 && c' == 0
    ensures start <= end && 0 <= newStart <= r' <= |t|
    ensures (lines + [t[start..end]]) + LinesFrom(t, maxLength, newStart, r', c') == Lines(t, maxLength)
  {
    assert StopAt(t, maxLength, r, c) == i;
    var st := NextStep(t, maxLength, start, r, c);
    assert st.Break? && st.end == end && st.next == newStart && st.resume == r' && st.count == c';
    var next := LinesFrom(t, maxLength, newStart, r', c');
    assert LinesFrom(t, maxLength, start, r, c) == [t[start..end]] + next;
    AppendAssoc(lines, [t[start..end]], next);
  }

  /** The line breaker: normalises `text` and scans it once. */
  method Wrap(text: string, maxLength: int) returns (lines: seq<string>)
    ensures lines == Lines(Normalise(text), maxLength)
    ensures |lines| >= 1
  {
    var charCount := 0;
    lines := [];
    var start := 0;
    var newStart := 0;
    var end := 0;
    var i := 0;
    var t := Normalise(text);
    ghost var r: nat, c: nat := 0, 0;

    while i <= |t|
      invariant 0 <= start && i <= |t| + 1
      invariant i <= |t| ==> start <= r <= i <= StopAt(t, maxLength, r, c)
      invariant i <= |t| ==> charCount == c + (i - r)
      invariant i <= |t| ==> lines + LinesFrom(t, maxLength, start, r, c) == Lines(t, maxLength)
      invariant i == |t| + 1 ==> lines == Lines(t, maxLength)
      decreases |t| + 1 - i
    {
      if i >= |t| {
        EmitAtEnd(t, maxLength, lines, start, r, c);
        assert t[start..i] == t[start..];
        lines := lines + [t[start..i]];
      } else if t[i] == '\n' {
        ghost var lines0, start0, r0, c0 := lines, start, r, c;
        charCount := 0;
        end := i;
        lines := lines + [t[start..end]];
        start := end + 1;
        r, c := i + 1, 0;
        EmitAtNewline(t, maxLength, lines0, start0, r0, c0, i, start, r, c);
      } else {
        var overflow := charCount >= maxLength;
        charCount := charCount + 1;
        if overflow {
          end := LastIndexOf(t[..i], ' ');
          ghost var lines0, start0, r0, c0 := lines, start, r, c;
          if end == -1 || end < start {
            charCount := 1;
            end := i;
            newStart := i;
            r, c := i + 1, 1;
          } else {
            charCount := 0;
            newStart := end + 1;
            r, c := i + 1, 0;
          }
          lines := lines + [t[start..end]];
          start := newStart;
          EmitAtOverflow(t, maxLength, lines0, start0, r0, c0, i, end, start, r, c);
        } else {
          PassCharacter(t, maxLength, r, c, i);
        }
      }
      i := i + 1;
    }
  }

  /*
   * What the lines are.
   */

  /** Interleaving a first line and a separator in front of further lines and separators. */
  lemma InterleaveCons(line: string, gap: string, lines: seq<string>, gaps: seq<string>)
    requires |gaps| + 1 == |lines|
    ensures Interleave([line] + lines, [gap] + gaps) == line + gap + Interleave(lines, gaps)
  {
    assert ([line] + lines)[1..] == lines;
    assert ([gap] + gaps)[1..] == gaps;
  }

  /**
   * The lines are consecutive slices of the text: putting back between each
   * two the separator that was dropped (nothing after a break inside a word,
   * one space after a break at a space, one newline after a hard break)
   * gives back the text exactly.
   */
  lemma {:induction false} LinesFromReconstruct(t: string, maxLength: int, start: nat, r: nat, c: nat)
    returns (gaps: seq<string>)
    requires start <= r <= |t|
    ensures |gaps| + 1 == |LinesFrom(t, maxLength, start, r, c)|
    ensures forall g <- gaps :: IsSeparator(g)
    ensures Interleave(LinesFrom(t, maxLength, start, r, c), gaps) == t[start..]
    decreases |t| - r
  {
    match NextStep(t, maxLength, start, r, c)
    case Last =>
      gaps := [];
    case Break(end, gap, next, resume, count) =>
      var rest := LinesFromReconstruct(t, maxLength, next, resume, count);
      gaps := [gap] + rest;
      InterleaveCons(t[start..end], gap, LinesFrom(t, maxLength, next, resume, count), rest);
      SplitSuffix(t, start, end, next);
  }

  /** `Lines` cuts the whole text into lines and separators. */
  lemma LinesReconstruct(t: string, maxLength: int) returns (gaps: seq<string>)
    ensures |gaps| + 1 == |Lines(t, maxLength)|
    ensures forall g <- gaps :: IsSeparator(g)
    ensures Interleave(Lines(t, maxLength), gaps) == t
  {
    gaps := LinesFromReconstruct(t, maxLength, 0, 0, 0);
    assert t[0..] == t;
  }

  /**
   * No line holds a newline, and every character of a line is a character
   * of the text.
   */
  lemma {:induction false} LinesFromClean(t: string, maxLength: int, start: nat, r: nat, c: nat)
    requires start <= r <= |t|
    requires forall k :: start <= k < r ==> t[k] != '\n'
    ensures forall line <- LinesFrom(t, maxLength, start, r, c), ch <- line :: ch != '\n' && ch in t
    decreases |t| - r
  {
    match NextStep(t, maxLength, start, r, c)
    case Last =>
    case Break(_, _, next, resume, count) =>
      LinesFromClean(t, maxLength, next, resume, count);
  }

  /** Wrapping never yields a tab or a newline inside a line. */
  lemma WrappedLinesHaveNoTabOrNewline(text: string, maxLength: int)
    ensures forall line <- Lines(Normalise(text), maxLength) :: '\t' !in line && '\n' !in line
  {
    LinesFromClean(Normalise(text), maxLength, 0, 0, 0);
  }

  /** Empty input yields a single empty line. */
  lemma WrapEmpty(maxLength: int)
    ensures Lines(Normalise(""), maxLength) == [""]
  {
  }

  /** A text without newlines that fits within the maximum stays one line. */
  lemma SingleLine(t: string, maxLength: int)
    requires '\n' !in t && |t| <= maxLength
    ensures Lines(t, maxLength) == [t]
  {
    var j := StopAt(t, maxLength, 0, 0);
    assert j == |t|;
    assert t[0..] == t;
  }

  /**
   * A newline at most `maxLength` characters after the beginning of a line
   * that starts with the counter at 0 (the first line, or a line after a
   * newline) ends that line; the next line begins after the newline, again
   * with the counter at 0.
   */
  lemma HardBreak(t: string, maxLength: int, s: nat, n: nat)
    requires s <= n < |t| && t[n] == '\n' && n - s <= maxLength
    requires forall k :: s <= k < n ==> t[k] != '\n'
    ensures LinesFrom(t, maxLength, s, s, 0) == [t[s..n]] + LinesFrom(t, maxLength, n + 1, n + 1, 0)
  {
    assert StopAt(t, maxLength, s, 0) == n;
  }

  /**
   * A line that starts with the counter at 0 (the first line, or a line
   * after a newline) and meets no newline within its first `maxLength + 1`
   * characters is cut among its first `maxLength` characters: right before
   * the last space there, which is dropped, or, when there is no space,
   * after exactly `maxLength` characters.
   */
  lemma WidthBreak(t: string, maxLength: nat, s: nat)
    requires s + maxLength < |t|
    requires forall k :: s <= k <= s + maxLength ==> t[k] != '\n'
    ensures var first := LinesFrom(t, maxLength, s, s, 0)[0];
      var window := t[s..s + maxLength];
      && (' ' in window ==>
            && |first| < maxLength && first == window[..|first|]
            && window[|first|] == ' ' && ' ' !in window[|first| + 1..])
      && (' ' !in window ==> first == window)
  {
    StopAtAtMost(t, maxLength, s, 0, s + maxLength);
    var j := StopAt(t, maxLength, s, 0);
    var e := LastIndexOf(t[..j], ' ');
    var first := LinesFrom(t, maxLength, s, s, 0)[0];
    var window := t[s..s + maxLength];
    if e < s {
      assert first == window;
      forall k | 0 <= k < |window| ensures window[k] != ' ' {
        assert window[k] == t[..j][s + k];
      }
    } else {
      assert first == t[s..e];
      assert window[e - s] == t[..j][e];
      forall k | e - s + 1 <= k < |window| ensures window[k] != ' ' {
        assert window[k] == t[..j][s + k];
      }
      assert window[..e - s] == t[s..e];
      assert first == window[..e - s];
    }
  }

  /**
   * After a break at a space the counter restarts at 0 although the new
   * line already holds the characters after that space, so a line can be
   * longer than `maxLength`: with a maximum of 5 the second line has 6
   * characters.
   */
  lemma CounterRestartsAfterSpaceBreak()
    ensures Lines(SpaceBreakExample, 5) == ["aaaa", "bbbbbb", "bb"]
  {
    var t := SpaceBreakExample;
    ExampleFirstLine();
    ExampleSecondLine();
    ExampleLastLine();
    assert Lines(t, 5) == ["aaaa"] + (["bbbbbb"] + ["bb"]);
  }

  const SpaceBreakExample: string := "aaaa bbbbbbbb"

  /** The first line ends at the space, which is dropped. */
  lemma ExampleFirstLine()
    ensures LinesFrom(SpaceBreakExample, 5, 0, 0, 0) == ["aaaa"] + LinesFrom(SpaceBreakExample, 5, 5, 6, 0)
  {
    var t := SpaceBreakExample;
    assert StopAt(t, 5, 0, 0) == 5;
    assert LastIndexOf(t[..5], ' ') == 4;
    assert NextStep(t, 5, 0, 0, 0) == Break(4, " ", 5, 6, 0);
    assert t[0..4] == "aaaa";
  }

  /** The second line finds no space after its start and is cut inside the word. */
  lemma ExampleSecondLine()
    ensures LinesFrom(SpaceBreakExample, 5, 5, 6, 0) == ["bbbbbb"] + LinesFrom(SpaceBreakExample, 5, 11, 12, 1)
  {
    var t := SpaceBreakExample;
    assert StopAt(t, 5, 6, 0) == 11;
    assert t[..11][4] == ' ';
    assert LastIndexOf(t[..11], ' ') == 4;
    assert NextStep(t, 5, 5, 6, 0) == Break(11, "", 11, 12, 1);
    assert t[5..11] == "bbbbbb";
  }

  /** The rest of the text fits before the counter reaches the maximum. */
  lemma ExampleLastLine()
    ensures LinesFrom(SpaceBreakExample, 5, 11, 12, 1) == ["bb"]
  {
    var t := SpaceBreakExample;
    assert StopAt(t, 5, 12, 1) == 13;
    assert t[11..] == "bb";
  }
}
