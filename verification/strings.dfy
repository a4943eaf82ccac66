/** Suffix operations on strings, the building blocks of the end-anchored regular expressions. */
module Strings {

  predicate EndsWith(s: string, suffix: string) {
    |suffix| <= |s| && s[|s| - |suffix|..] == suffix
  }

  /** `s` without its last `n` characters. */
  function DropLast(s: string, n: nat): string
    requires n <= |s|
  {
    s[..|s| - n]
  }

  /** Length of the longest suffix of `s` whose every character satisfies `P`. */
  function SuffixRun(s: string, P: char -> bool): (n: nat)
    ensures n <= |s|
    ensures forall i :: |s| - n <= i < |s| ==> P(s[i])
    ensures n < |s| ==> !P(s[|s| - n - 1])
    decreases |s|
  {
    if |s| == 0 || !P(s[|s| - 1]) then 0 else 1 + SuffixRun(s[..|s| - 1], P)
  }

  /** The run is determined by its characterisation: appending characters that satisfy `P`
      to a string that does not end in one yields a run of exactly that length. */
  lemma {:induction false} SuffixRunOfAppend(x: string, y: string, P: char -> bool)
    requires forall i :: 0 <= i < |y| ==> P(y[i])
    requires |x| == 0 || !P(x[|x| - 1])
    ensures SuffixRun(x + y, P) == |y|
    decreases |y|
  {
    if |y| == 0 {
      assert x + y == x;
    } else {
      var y' := y[..|y| - 1];
      assert (x + y)[..|x + y| - 1] == x + y';
      SuffixRunOfAppend(x, y', P);
    }
  }

  /** Peeling a known suffix off a concatenation gives back the front part. */
  lemma Peel(x: string, y: string)
    ensures EndsWith(x + y, y)
    ensures DropLast(x + y, |y|) == x
  {
    assert (x + y)[|x|..] == y;
    assert (x + y)[..|x|] == x;
  }

  /** Suffixes compose: if `s` ends with `y` and what precedes it ends with `x`,
      then `s` ends with `x + y`. */
  lemma EndsWithConcat(s: string, x: string, y: string)
    requires EndsWith(s, y) && EndsWith(DropLast(s, |y|), x)
    ensures EndsWith(s, x + y)
    ensures DropLast(s, |x + y|) == DropLast(DropLast(s, |y|), |x|)
  {
    var k := |s| - |x| - |y|;
    forall i | 0 <= i < |x| + |y|
      ensures s[k..][i] == (x + y)[i]
    {
      if i < |x| {
        assert s[k..][i] == DropLast(s, |y|)[|DropLast(s, |y|)| - |x|..][i];
      } else {
        assert s[k..][i] == s[|s| - |y|..][i - |x|];
      }
    }
  }

  /** A suffix that is present only when `present` holds. */
  function OptionalText(present: bool, text: string): string {
    if present then text else ""
  }

  /** Removes `text` from the end of `s` when it is there, saying whether it was. */
  function StripOptional(s: string, text: string): (r: (bool, string))
    ensures r.0 <==> EndsWith(s, text)
    ensures EndsWith(s, OptionalText(r.0, text))
    ensures r.1 == DropLast(s, |OptionalText(r.0, text)|)
  {
    if EndsWith(s, text) then (true, DropLast(s, |text|)) else (false, s)
  }

  lemma StripOptionalPresent(w: string, text: string)
    ensures StripOptional(w + text, text) == (true, w)
  {
    Peel(w, text);
  }

  lemma StripOptionalAbsent(w: string, text: string)
    requires |w| > 0 && |text| > 0 && w[|w| - 1] != text[|text| - 1]
    ensures StripOptional(w, text) == (false, w)
  {
    NotEndsWithByLast(w, text);
  }

  /** Two strings with different last characters cannot be suffixes of one another. */
  lemma NotEndsWithByLast(s: string, suffix: string)
    requires |s| > 0 && |suffix| > 0
    requires s[|s| - 1] != suffix[|suffix| - 1]
    ensures !EndsWith(s, suffix)
  {
  }
}
