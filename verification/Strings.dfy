/** JavaScript's `String.prototype.trim`. */
module Strings {
  predicate IsSpace(c: char) {
    '\t' <= c <= '\r' || c == ' ' || c == '\U{A0}' || c == '\U{1680}' || '\U{2000}' <= c <= '\U{200A}' ||
    c in {'\U{2028}', '\U{2029}', '\U{202F}', '\U{205F}', '\U{3000}', '\U{FEFF}'}
  }

  function Trim(s: string): string
    decreases |s|
  {
    if s != [] && IsSpace(s[0]) then Trim(s[1..])
    else if s != [] && IsSpace(s[|s| - 1]) then Trim(s[..|s| - 1])
    else s
  }

  /** `t` is what stands between the outer blanks. */
  ghost predicate IsTrimmed(s: string, t: string) {
    exists a, b :: IsCore(s, a, b) && s[a..b] == t
  }

  /** Blanks up to `a` and from `b`, and none at the ends of what is between. */
  ghost predicate IsCore(s: string, a: int, b: int) {
    && 0 <= a <= b <= |s| && (forall i :: 0 <= i < a || b <= i < |s| ==> IsSpace(s[i]))
    && (a < b ==> !IsSpace(s[a]) && !IsSpace(s[b - 1]))
  }

  predicate Blank(s: string) {
    forall i :: 0 <= i < |s| ==> IsSpace(s[i])
  }

  lemma {:induction false} Core(s: string) returns (a: nat, b: nat)
    ensures IsCore(s, a, b) && Trim(s) == s[a..b]
    decreases |s|
  {
    if s != [] && IsSpace(s[0]) {
      a, b := Core(s[1..]);
      a, b := a + 1, b + 1;
      assert forall i :: 1 <= i < |s| ==> s[i] == s[1..][i - 1];
      assert s[a..b] == s[1..][a - 1..b - 1];
    } else if s != [] && IsSpace(s[|s| - 1]) {
      a, b := Core(s[..|s| - 1]);
      assert s[a..b] == s[..|s| - 1][a..b];
    } else {
      a, b := 0, |s|;
    }
  }

  lemma TrimMeaning(s: string)
    ensures IsTrimmed(s, Trim(s)) && (Trim(s) == "" <==> Blank(s))
  {
    var a, b := Core(s);
  }
}
