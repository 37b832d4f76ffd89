/**
 * Guessing the language of a program text (`classify`) and of a file from
 * its name (`classifyExtension`). The languages are named by the strings
 * "mscgen", "json" and "msgenny".
 *
 * `classify` tests two regular expressions: `msc\s*{` anywhere in the text
 * (the MscGen header), then `^\s*{` (a text that opens with a brace, i.e.
 * JSON). Below, `ContainsMscOpen` and `OpensWithBrace` say what a match of
 * each is, and the scanning functions that `Classify` runs are proved to
 * find a match exactly when there is one.
 */
module Sniffer {
  import opened Strings

  /** The characters matched by `\s` in a JavaScript regular expression. */
  predicate IsJsSpace(ch: char) {
    || ch == ' ' || ch == '\t' || ch == '\n' || ch == '\r' || ch == '\U{000B}' || ch == '\U{000C}'
    || ch == '\U{00A0}' || ch == '\U{1680}' || ('\U{2000}' <= ch <= '\U{200A}')
    || ch == '\U{2028}' || ch == '\U{2029}' || ch == '\U{202F}' || ch == '\U{205F}'
    || ch == '\U{3000}' || ch == '\U{FEFF}'
  }

  /** `w` is a (possibly empty) run of `\s` characters. */
  predicate AllSpaces(w: string) {
    forall k :: 0 <= k < |w| ==> IsJsSpace(w[k])
  }

  /** `s[p..j+1]` matches `msc\s*{`. */
  ghost predicate MscOpenAt(s: string, p: int, j: int) {
    0 <= p && p + 3 <= j < |s| && s[p..p + 3] == "msc" && AllSpaces(s[p + 3..j]) && s[j] == '{'
  }

  /** `msc\s*{` matches somewhere in `s`. */
  ghost predicate ContainsMscOpen(s: string) {
    exists p, j :: MscOpenAt(s, p, j)
  }

  /** `^\s*{` matches `s`: apart from leading `\s` characters, `s` starts with a brace. */
  ghost predicate OpensWithBrace(s: string) {
    exists j :: 0 <= j < |s| && AllSpaces(s[..j]) && s[j] == '{'
  }

  /** The first index at or after `k` that does not hold a `\s` character (or `|s|`). */
  function SkipSpaces(s: string, k: nat): (j: nat)
    requires k <= |s|
    ensures k <= j <= |s|
    ensures forall m :: k <= m < j ==> IsJsSpace(s[m])
    ensures j < |s| ==> !IsJsSpace(s[j])
    decreases |s| - k
  {
    if k < |s| && IsJsSpace(s[k]) then SkipSpaces(s, k + 1) else k
  }

  /** A run of spaces from `k` up to a non-space at `j` is exactly what `SkipSpaces` skips. */
  lemma {:induction false} SkipSpacesStopsAt(s: string, k: nat, j: nat)
    requires k <= j < |s| && AllSpaces(s[k..j]) && !IsJsSpace(s[j])
    ensures SkipSpaces(s, k) == j
    decreases j - k
  {
    if k < j {
      assert s[k] == s[k..j][0];
      SkipSpacesStopsAt(s, k + 1, j);
    }
  }

  /** Searches `msc\s*{` starting at index `i` or later. */
  function MscOpenFrom(s: string, i: nat): bool
    decreases |s| - i
  {
    if i + 3 > |s| then false
    else if s[i..i + 3] == "msc" && SkipSpaces(s, i + 3) < |s| && s[SkipSpaces(s, i + 3)] == '{' then true
    else MscOpenFrom(s, i + 1)
  }

  /** The search finds a match exactly when one starts at index `i` or later. */
  lemma {:induction false} MscOpenFromCorrect(s: string, i: nat)
    ensures MscOpenFrom(s, i) <==> exists p, j :: i <= p && MscOpenAt(s, p, j)
    decreases |s| - i
  {
    if i + 3 <= |s| {
      MscOpenFromCorrect(s, i + 1);
      var j := SkipSpaces(s, i + 3);
      if s[i..i + 3] == "msc" && j < |s| && s[j] == '{' {
        assert MscOpenAt(s, i, j);
      } else {
        forall j' | MscOpenAt(s, i, j')
          ensures SkipSpaces(s, i + 3) == j'
        {
          SkipSpacesStopsAt(s, i + 3, j');
        }
      }
    }
  }

  /** Whether the first non-space character of `s` is a brace. */
  function FirstNonSpaceIsBrace(s: string): (b: bool)
    ensures b <==> OpensWithBrace(s)
  {
    var j := SkipSpaces(s, 0);
    if j < |s| && s[j] == '{' then
      assert forall m :: 0 <= m < |s[..j]| ==> s[..j][m] == s[m];
      assert AllSpaces(s[..j]);
      true
    else
      assert forall j' :: 0 <= j' < |s| && AllSpaces(s[..j']) && s[j'] == '{' ==> SkipSpaces(s, 0) == j' by {
        forall j' | 0 <= j' < |s| && AllSpaces(s[..j']) && s[j'] == '{'
          ensures SkipSpaces(s, 0) == j'
        {
          assert s[0..j'] == s[..j'];
          SkipSpacesStopsAt(s, 0, j');
        }
      }
      false
  }

  /**
   * The language a program text is probably written in: MscGen when the
   * MscGen header `msc {` (any spacing) occurs anywhere, otherwise JSON when
   * the text opens with a brace, otherwise MsGenny.
   */
  function Classify(s: string): (r: string)
    ensures r == "mscgen" <==> ContainsMscOpen(s)
    ensures r == "json" <==> !ContainsMscOpen(s) && OpensWithBrace(s)
    ensures r == "msgenny" <==> !ContainsMscOpen(s) && !OpensWithBrace(s)
  {
    MscOpenFromCorrect(s, 0);
    if MscOpenFrom(s, 0) then "mscgen"
    else if FirstNonSpaceIsBrace(s) then "json"
    else "msgenny"
  }

  /** File extensions that name a language; any other extension means MscGen. */
  const ExtensionMap: map<string, string> := map[
    "msgenny" := "msgenny",
    "mscgen" := "mscgen",
    "msc" := "mscgen",
    "mscin" := "mscgen",
    "json" := "json",
    "ast" := "json"
  ]

  /** The language of a file, judged by the part of its name after the last dot. */
  function ClassifyExtension(name: string): (r: string)
    ensures r == "mscgen" || r == "json" || r == "msgenny"
    ensures '.' !in name ==> r == "mscgen"
  {
    var pos := LastIndexOf(name, '.');
    if pos > -1 then
      var ext := name[pos + 1..];
      if ext in ExtensionMap then ExtensionMap[ext] else "mscgen"
    else "mscgen"
  }

  /**
   * Only the extension after the last dot counts: a name `base.ext` whose
   * `ext` has no dot is classified by looking `ext` up in the table, and an
   * unknown extension gives MscGen, whatever `base` holds.
   */
  lemma ClassifyExtensionBySuffix(base: string, ext: string)
    requires '.' !in ext
    ensures ClassifyExtension(base + "." + ext) == (if ext in ExtensionMap then ExtensionMap[ext] else "mscgen")
  {
    var name := base + "." + ext;
    assert name[|base|] == '.';
    assert forall k :: |base| < k < |name| ==> name[k] == ext[k - |base| - 1];
    assert LastIndexOf(name, '.') == |base|;
    assert name[|base| + 1..] == ext;
  }
}
