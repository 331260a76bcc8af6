/** The Python `str` operations the webhook handler relies on:
    `strip()` with no argument, `split(sep, 1)` and the `in` operator
    between two strings. Python strings are sequences of code points,
    modelled as `seq<char>` with Unicode `char`. */
module PyString {
  import opened Wrappers

  /** The code points for which Python's `str.isspace()` holds; `strip()`
      with no argument removes exactly these. */
  predicate IsSpace(c: char) {
    || ('\t' <= c <= '\r')
    || ('\U{1C}' <= c <= '\U{1F}')
    || c == ' '
    || c == '\U{85}'
    || c == '\U{A0}'
    || c == '\U{1680}'
    || ('\U{2000}' <= c <= '\U{200A}')
    || c == '\U{2028}'
    || c == '\U{2029}'
    || c == '\U{202F}'
    || c == '\U{205F}'
    || c == '\U{3000}'
  }

  predicate AllSpace(s: string) {
    forall k :: 0 <= k < |s| ==> IsSpace(s[k])
  }

  /** Every character of `s` from index `lo` up to `hi` is whitespace. */
  predicate SpaceBetween(s: string, lo: int, hi: int) {
    0 <= lo <= hi <= |s| && forall k :: lo <= k < hi ==> IsSpace(s[k])
  }

  /** Neither the first nor the last character of `s` is whitespace. */
  predicate Trimmed(s: string) {
    s == [] || (!IsSpace(s[0]) && !IsSpace(s[|s| - 1]))
  }

  /** `r` is what is left of `s` once a whitespace prefix and a whitespace
      suffix are cut off, and `r` itself starts and ends with non-whitespace. */
  ghost predicate IsStripOf(s: string, r: string) {
    exists i, j :: StripsAt(s, i, j, r)
  }

  /** `r` is `s[i..j]`, everything outside `i..j` is whitespace and `r`
      starts and ends with non-whitespace. */
  predicate StripsAt(s: string, i: int, j: int, r: string) {
    && 0 <= i <= j <= |s| && r == s[i..j]
    && SpaceBetween(s, 0, i) && SpaceBetween(s, j, |s|) && Trimmed(r)
  }

  /** The index of the first non-whitespace character at or after `i`,
      or `|s|` when there is none: where `lstrip()` starts the result. */
  function SkipSpace(s: string, i: nat): (k: nat)
    requires i <= |s|
    ensures i <= k <= |s| && SpaceBetween(s, i, k)
    ensures k == |s| || !IsSpace(s[k])
    decreases |s| - i
  {
    if i < |s| && IsSpace(s[i]) then SkipSpace(s, i + 1) else i
  }

  /** The index just past the last non-whitespace character before `j`,
      or `lo` when there is none from `lo` on: where `rstrip()` ends the result. */
  function SkipSpaceBack(s: string, lo: nat, j: nat): (k: nat)
    requires lo <= j <= |s|
    ensures lo <= k <= j && SpaceBetween(s, k, j)
    ensures k == lo || !IsSpace(s[k - 1])
    decreases j
  {
    if lo < j && IsSpace(s[j - 1]) then SkipSpaceBack(s, lo, j - 1) else j
  }

  /** `s.strip()`. */
  function Strip(s: string): (r: string)
    ensures IsStripOf(s, r)
  {
    var i := SkipSpace(s, 0);
    var j := SkipSpaceBack(s, i, |s|);
    assert SpaceBetween(s, j, |s|);
    assert StripsAt(s, i, j, s[i..j]);
    s[i..j]
  }

  /** A text that neither starts nor ends with whitespace is its own strip. */
  lemma StripOfTrimmed(s: string)
    requires Trimmed(s)
    ensures Strip(s) == s
  {
    assert s[0..|s|] == s;
    assert StripsAt(s, 0, |s|, s);
    StripUnique(s, s);
  }

  /** A whitespace prefix of `s` cannot reach past the first
      character of a non-empty piece of `s` that starts with non-whitespace. */
  lemma SpacePrefixBound(s: string, i: nat, i': nat, r: string)
    requires SpaceBetween(s, 0, i')
    requires r != [] && !IsSpace(r[0])
    requires i + |r| <= |s| && r == s[i..i + |r|]
    ensures i' <= i
  {
    assert s[i] == r[0];
  }

  /** Mirror image of `SpacePrefixBound` for a whitespace suffix. */
  lemma SpaceSuffixBound(s: string, j: nat, j': nat, r: string)
    requires SpaceBetween(s, j', |s|)
    requires r != [] && !IsSpace(r[|r| - 1])
    requires |r| <= j <= |s| && r == s[j - |r|..j]
    ensures j <= j'
  {
    assert s[j - 1] == r[|r| - 1];
  }

  /** A strip of `s` is empty exactly when `s` is all whitespace. */
  lemma StripEmptyIffAllSpace(s: string, i: nat, j: nat, r: string)
    requires StripsAt(s, i, j, r)
    ensures r == [] <==> AllSpace(s)
  {
    if r != [] {
      assert s[i] == r[0];
    }
  }

  /** Two ways of stripping `s` leave the same string. */
  lemma StripsAtUnique(s: string, i: int, j: int, r: string, i': int, j': int, r': string)
    requires StripsAt(s, i, j, r) && StripsAt(s, i', j', r')
    ensures r == r'
  {
    StripEmptyIffAllSpace(s, i, j, r);
    StripEmptyIffAllSpace(s, i', j', r');
    if r != [] {
      SpacePrefixBound(s, i, i', r);
      SpacePrefixBound(s, i', i, r');
      SpaceSuffixBound(s, j, j', r);
      SpaceSuffixBound(s, j', j, r');
    }
  }

  /** `strip()` is characterised by `IsStripOf`: exactly one string is a
      strip of `s`, and `Strip` computes it. */
  lemma StripUnique(s: string, r: string)
    requires IsStripOf(s, r)
    ensures r == Strip(s)
  {
    var i, j :| StripsAt(s, i, j, r);
    var r' := Strip(s);
    var i', j' :| StripsAt(s, i', j', r');
    StripsAtUnique(s, i, j, r, i', j', r');
  }

  lemma StripIsStrip(s: string, r: string)
    ensures IsStripOf(s, r) <==> r == Strip(s)
  {
    if IsStripOf(s, r) {
      StripUnique(s, r);
    }
  }

  /** The result of `strip()` has no surrounding whitespace, so stripping
      again changes nothing. */
  lemma StripIdempotent(s: string)
    ensures Trimmed(Strip(s))
    ensures Strip(Strip(s)) == Strip(s)
  {
    var r := Strip(s);
    var i, j :| StripsAt(s, i, j, r);
    StripOfTrimmed(r);
  }

  /** Index of the first occurrence of `c` in `s`, if any. */
  function FindFirst(s: string, c: char): (r: Option<nat>)
    ensures r.Some? ==> r.value < |s| && s[r.value] == c && c !in s[..r.value]
    ensures r.None? <==> c !in s
  {
    if |s| == 0 then None
    else if s[0] == c then Some(0)
    else
      match FindFirst(s[1..], c)
      case None => None
      case Some(k) =>
        assert s[..k + 1] == [s[0]] + s[1..][..k];
        Some(k + 1)
  }

  /** `s.split(sep, 1)` for a one-character separator: `[s]` when `sep`
      does not occur, otherwise the text before its first occurrence and
      everything after it. */
  function Split1(s: string, sep: char): (parts: seq<string>)
    ensures sep !in s ==> parts == [s]
    ensures sep in s ==> |parts| == 2 && sep !in parts[0]
                         && parts[0] + [sep] + parts[1] == s
  {
    match FindFirst(s, sep)
    case None => [s]
    case Some(k) =>
      assert s == s[..k] + [sep] + s[k + 1..];
      [s[..k], s[k + 1..]]
  }

  /** The pieces `split(sep, 1)` returns are determined by the first
      occurrence of `sep`: any split of `s` at a `sep` with no earlier `sep`
      is the one Python returns. */
  lemma Split1AtFirst(before: string, sep: char, after: string)
    requires sep !in before
    ensures Split1(before + [sep] + after, sep) == [before, after]
  {
    var s := before + [sep] + after;
    assert s[..|before|] == before;
    assert s[|before|] == sep;
    assert s[|before| + 1..] == after;
    var k := FindFirst(s, sep).value;
    assert k <= |before| by {
      assert sep in s[..|before| + 1];
    }
    assert s[..|before|][k..] == before[k..];
  }

  /** `needle` occurs in `hay` starting at index `i`. */
  predicate OccursAt(hay: string, needle: string, i: int) {
    0 <= i && i + |needle| <= |hay| && forall k :: 0 <= k < |needle| ==> hay[i + k] == needle[k]
  }

  /** An occurrence in the tail of `hay` is an occurrence in `hay` one index later. */
  lemma OccursAtTail(hay: string, needle: string, i: nat)
    requires |hay| > 0
    ensures OccursAt(hay, needle, i + 1) <==> OccursAt(hay[1..], needle, i)
  {
    if i + 1 + |needle| <= |hay| {
      forall k | 0 <= k < |needle|
        ensures (hay[1..][i + k] == needle[k]) == (hay[i + 1 + k] == needle[k])
      {
      }
    }
  }

  /** Python's `needle in hay` for two strings. */
  function HasSubstring(hay: string, needle: string): (r: bool)
    ensures r <==> exists i :: OccursAt(hay, needle, i)
  {
    if OccursAt(hay, needle, 0) then
      true
    else if |needle| >= |hay| then
      false
    else
      var r := HasSubstring(hay[1..], needle);
      assert forall i :: OccursAt(hay, needle, i) ==> OccursAt(hay[1..], needle, i - 1) by {
        forall i | OccursAt(hay, needle, i) ensures OccursAt(hay[1..], needle, i - 1) {
          OccursAtTail(hay, needle, i - 1);
        }
      }
      assert forall i :: OccursAt(hay[1..], needle, i) ==> OccursAt(hay, needle, i + 1) by {
        forall i | OccursAt(hay[1..], needle, i) ensures OccursAt(hay, needle, i + 1) {
          OccursAtTail(hay, needle, i);
        }
      }
      r
  }
}
