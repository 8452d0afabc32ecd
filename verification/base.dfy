/**
 Values shared by every part of the model: an optional value (the source's
 `undefined` / `None`), JavaScript truthiness of optional strings, the `||`
 fallback, and `String.prototype.trim`.
 */
module Base {

  /** `None` stands for an absent field (`undefined` in TypeScript, `None` in Python). */
  datatype Option<+T> = None | Some(value: T) {

    /** The wrapped value, or `default` when absent. */
    function GetOr(default: T): T {
      match this
      case Some(v) => v
      case None => default
    }
  }

  /** JavaScript truthiness of an optional string: absent and `""` are falsy. */
  predicate Truthy(s: Option<string>) {
    s.Some? && s.value != ""
  }

  /** `s || fallback` for an optional string. */
  function OrElse(s: Option<string>, fallback: string): (r: string)
    ensures Truthy(s) ==> r == s.value
    ensures !Truthy(s) ==> r == fallback
  {
    if Truthy(s) then s.value else fallback
  }

  /** `s || undefined`: an empty string becomes absent. */
  function OrUndefined(s: Option<string>): (r: Option<string>)
    ensures r.Some? <==> Truthy(s)
    ensures r.Some? ==> r == s
  {
    if Truthy(s) then s else None
  }

  /**
   The characters `String.prototype.trim` removes: the ECMAScript WhiteSpace
   set (tab, vertical tab, form feed, space, no-break space, byte-order mark and
   the Unicode space separators) and the LineTerminator set.
   */
  predicate IsJsSpace(c: char) {
    || c == '\t' || c == '\n' || c == '\U{000B}' || c == '\U{000C}' || c == '\r'
    || c == ' ' || c == '\U{00A0}' || c == '\U{1680}'
    || ('\U{2000}' <= c <= '\U{200A}')
    || c == '\U{2028}' || c == '\U{2029}' || c == '\U{202F}' || c == '\U{205F}'
    || c == '\U{3000}' || c == '\U{FEFF}'
  }

  predicate AllSpace(s: string) {
    forall k :: 0 <= k < |s| ==> IsJsSpace(s[k])
  }

  /** The index of the first non-white-space character at or after `k` (or `|s|`). */
  function SkipSpaces(s: string, k: nat): (n: nat)
    requires k <= |s|
    ensures k <= n <= |s|
    ensures forall m :: k <= m < n ==> IsJsSpace(s[m])
    ensures n < |s| ==> !IsJsSpace(s[n])
    decreases |s| - k
  {
    if k < |s| && IsJsSpace(s[k]) then SkipSpaces(s, k + 1) else k
  }

  /** The end of `s[lo..k]` once trailing white space is dropped. */
  function BackOverSpaces(s: string, lo: nat, k: nat): (j: nat)
    requires lo <= k <= |s|
    ensures lo <= j <= k
    ensures forall m :: j <= m < k ==> IsJsSpace(s[m])
    ensures j > lo ==> !IsJsSpace(s[j - 1])
    decreases k
  {
    if k > lo && IsJsSpace(s[k - 1]) then BackOverSpaces(s, lo, k - 1) else k
  }

  /**
   `s.trim()`: the slice of `s` left once white space is removed from both
   ends; it neither starts nor ends with white space.
   */
  function Trim(s: string): (r: string)
    ensures exists i, j :: 0 <= i <= j <= |s| && r == s[i..j] && AllSpace(s[..i]) && AllSpace(s[j..])
    ensures |r| > 0 ==> !IsJsSpace(r[0]) && !IsJsSpace(r[|r| - 1])
    ensures r == "" <==> AllSpace(s)
  {
    var i := SkipSpaces(s, 0);
    var j := BackOverSpaces(s, i, |s|);
    assert AllSpace(s[..i]) by {
      forall m | 0 <= m < i
        ensures IsJsSpace(s[..i][m])
      {
        assert s[..i][m] == s[m];
      }
    }
    assert AllSpace(s[j..]) by {
      forall m | 0 <= m < |s| - j
        ensures IsJsSpace(s[j..][m])
      {
        assert s[j..][m] == s[j + m];
      }
    }
    s[i..j]
  }

  /** True when `s` is absent, empty, or only white space: `!s || !s.trim()`. */
  predicate Blank(s: Option<string>) {
    s.None? || Trim(s.value) == ""
  }
}
