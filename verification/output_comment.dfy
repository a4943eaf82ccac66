/** Removal of the `//# sourceMappingURL=out.js.map` comment the minifier leaves at the end
    of its output. The expression's dots are unescaped, so each matches any character
    other than a line terminator. */
module OutputComment {
  import opened Strings

  /** What an unescaped `.` matches: one UTF-16 code unit other than a line terminator.
      A character outside the Basic Multilingual Plane takes two code units, and the
      literal after each dot cannot match the second, so such a character never matches. */
  predicate AnyChar(c: char) {
    c != '\n' && c != '\r' && c != '\U{2028}' && c != '\U{2029}' && c < '\U{10000}'
  }

  /** `sourceMappingURL=out.js.map` with each `.` as a wildcard. */
  predicate IsTarget(t: string) {
    && |t| == 27
    && t[..20] == "sourceMappingURL=out"
    && AnyChar(t[20])
    && t[21..23] == "js"
    && AnyChar(t[23])
    && t[24..] == "map"
  }

  /** `\/\/[#@] ?sourceMappingURL=out.js.map`, matched as a whole. */
  predicate IsComment(c: string) {
    && |c| >= 3
    && c[..2] == "//"
    && (c[2] == '#' || c[2] == '@')
    && ((|c| == 31 && c[3] == ' ' && IsTarget(c[4..])) || (|c| == 30 && IsTarget(c[3..])))
  }

  /** The two matches differ in length by the optional space, and cannot both end a string:
      the longer one has its marker where the shorter has a slash. */
  lemma AtMostOneEnding(code: string)
    requires |code| >= 31 && IsComment(code[|code| - 31..])
    ensures !IsComment(code[|code| - 30..])
  {
    assert code[|code| - 30..][1] == code[|code| - 31..][2];
  }

  /** The last `n` characters of `code` form a comment. */
  predicate EndsInComment(code: string, n: nat) {
    |code| >= n && IsComment(code[|code| - n..])
  }

  /** `out` is `code`, or `code` with a trailing comment removed. */
  predicate StrippedFrom(code: string, out: string) {
    |out| <= |code| && out == code[..|out|] && (out != code ==> IsComment(code[|out|..]))
  }

  /** `code.replace(/.../, '')`: the expression is anchored by `$`, so only a comment that
      ends the code is removed; the leftmost candidate is the longer one. */
  function Strip(code: string): (r: string)
    ensures StrippedFrom(code, r)
    ensures r != code <==> EndsInComment(code, 31) || EndsInComment(code, 30)
  {
    if EndsInComment(code, 31) then code[..|code| - 31]
    else if EndsInComment(code, 30) then code[..|code| - 30]
    else code
  }

  /** Round trip: appending a comment and stripping it gives the code back. */
  lemma StripAppended(code: string, c: string)
    requires IsComment(c)
    ensures Strip(code + c) == code
  {
    var s := code + c;
    assert s[|s| - |c|..] == c;
    if |c| == 30 {
      assert |s| >= 31 ==> s[|s| - 31..][2] == c[1] == '/';
      assert !EndsInComment(s, 31);
    }
  }

  /** Code that does not end in such a comment is left exactly as it is. */
  lemma StripWithoutComment(code: string)
    requires forall x, c :: code == x + c ==> !IsComment(c)
    ensures Strip(code) == code
  {
    if |code| >= 31 {
      var x, c := code[..|code| - 31], code[|code| - 31..];
      assert code == x + c;
      assert !IsComment(c);
    }
    if |code| >= 30 {
      var x, c := code[..|code| - 30], code[|code| - 30..];
      assert code == x + c;
      assert !IsComment(c);
    }
  }

  /** The comment with the given marker, spacing and characters in the dots' places. */
  function CommentWith(marker: char, spaced: bool, c1: char, c2: char): string {
    "//" + [marker] + (if spaced then " " else "") + "sourceMappingURL=out" + [c1] + "js" + [c2] + "map"
  }

  /** A comment with a character beyond the Basic Multilingual Plane in a dot's place
      does not match. */
  lemma AstralCommentRejected(marker: char, spaced: bool, c1: char, c2: char)
    requires c1 >= '\U{10000}' || c2 >= '\U{10000}'
    ensures !IsComment(CommentWith(marker, spaced, c1, c2))
  {
    var c := CommentWith(marker, spaced, c1, c2);
    if spaced {
      assert c[4..][20] == c1 && c[4..][23] == c2;
    } else {
      assert c[3..][20] == c1 && c[3..][23] == c2;
    }
  }

  /** A character beyond the Basic Multilingual Plane in either dot's place keeps the
      comment in place, whatever precedes it and whichever marker and spacing it uses. */
  lemma AstralCharacterKept(x: string, marker: char, spaced: bool, c1: char, c2: char)
    requires marker == '#' || marker == '@'
    requires c1 >= '\U{10000}' || c2 >= '\U{10000}'
    ensures var code := x + "//" + [marker] + (if spaced then " " else "")
                        + "sourceMappingURL=out" + [c1] + "js" + [c2] + "map";
      Strip(code) == code
  {
    var c := CommentWith(marker, spaced, c1, c2);
    var code := x + "//" + [marker] + (if spaced then " " else "")
                + "sourceMappingURL=out" + [c1] + "js" + [c2] + "map";
    assert code == x + c;
    assert code[|code| - |c|..] == c;
    AstralCommentRejected(marker, spaced, c1, c2);
    if spaced {
      assert |c| == 31;
      assert code[|code| - 30..][1] == c[2];
    } else {
      assert |c| == 30;
      assert |code| >= 31 ==> code[|code| - 31..][2] == c[1];
    }
  }
}
