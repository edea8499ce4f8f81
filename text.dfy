/**
 * The string rules of committing an edit: the trailing-newline strip of
 * `replace(/\n$/, "")` and the blank test `trim() === ""`.
 */
module Text {

  /**
   * The characters `String.prototype.trim` removes: ECMAScript WhiteSpace
   * (tab, vertical tab, form feed, space, no-break space, byte order mark and
   * the other space separators of category Zs) and LineTerminator.
   */
  predicate IsTrimmed(c: char) {
    || c == '\t' || c == '\U{000B}' || c == '\U{000C}' || c == ' ' || c == '\U{00A0}' || c == '\U{FEFF}'
    || c == '\U{1680}' || ('\U{2000}' <= c <= '\U{200A}') || c == '\U{202F}' || c == '\U{205F}' || c == '\U{3000}'
    || c == '\n' || c == '\r' || c == '\U{2028}' || c == '\U{2029}'
  }

  /** Every character of `s` is one that `trim` removes. */
  predicate Blank(s: string) {
    forall i :: 0 <= i < |s| ==> IsTrimmed(s[i])
  }

  function TrimStart(s: string): string {
    if |s| > 0 && IsTrimmed(s[0]) then TrimStart(s[1..]) else s
  }

  function TrimEnd(s: string): string {
    if |s| > 0 && IsTrimmed(s[|s| - 1]) then TrimEnd(s[..|s| - 1]) else s
  }

  /** `s.trim()`. */
  function Trim(s: string): string {
    TrimEnd(TrimStart(s))
  }

  lemma {:induction false} TrimStartEmpty(s: string)
    ensures TrimStart(s) == "" <==> Blank(s)
    ensures TrimStart(s) != "" ==> !IsTrimmed(TrimStart(s)[0])
  {
    if |s| > 0 && IsTrimmed(s[0]) {
      TrimStartEmpty(s[1..]);
      assert Blank(s) <==> Blank(s[1..]) by {
        if Blank(s[1..]) {
          forall i | 0 <= i < |s| ensures IsTrimmed(s[i]) { if i > 0 { assert s[i] == s[1..][i - 1]; } }
        }
        if Blank(s) {
          forall i | 0 <= i < |s[1..]| ensures IsTrimmed(s[1..][i]) { assert s[1..][i] == s[i + 1]; }
        }
      }
    }
  }

  lemma {:induction false} TrimEndEmpty(s: string)
    ensures TrimEnd(s) == "" <==> Blank(s)
  {
    if |s| > 0 && IsTrimmed(s[|s| - 1]) {
      var t := s[..|s| - 1];
      TrimEndEmpty(t);
      assert Blank(s) <==> Blank(t) by {
        if Blank(t) {
          forall i | 0 <= i < |s| ensures IsTrimmed(s[i]) { if i < |s| - 1 { assert s[i] == t[i]; } }
        }
        if Blank(s) {
          forall i | 0 <= i < |t| ensures IsTrimmed(t[i]) { assert t[i] == s[i]; }
        }
      }
    } else if |s| > 0 {
      assert !IsTrimmed(s[|s| - 1]);
    }
  }

  /** `trim()` yields the empty string exactly when every character is whitespace. */
  lemma TrimEmptyIffBlank(s: string)
    ensures Trim(s) == "" <==> Blank(s)
  {
    TrimStartEmpty(s);
    var t := TrimStart(s);
    TrimEndEmpty(t);
    if t != "" {
      assert !Blank(t) by { assert !IsTrimmed(t[0]); }
    }
  }

  /** The string ends in a line feed. */
  predicate EndsInNewline(s: string) {
    |s| > 0 && s[|s| - 1] == '\n'
  }

  /**
   * `s.replace(/\n$/, "")`: without the multiline flag `$` matches only at the
   * very end, so at most one final line feed goes.
   */
  function StripTrailingNewline(s: string): (r: string)
    ensures EndsInNewline(s) ==> r + "\n" == s
    ensures !EndsInNewline(s) ==> r == s
  {
    if EndsInNewline(s) then s[..|s| - 1] else s
  }

  /** Only one line feed goes: of a text ending in two, the result still ends in one. */
  lemma StripOnlyOne(s: string)
    requires |s| >= 2 && s[|s| - 1] == '\n' && s[|s| - 2] == '\n'
    ensures EndsInNewline(StripTrailingNewline(s))
  {
  }
}
