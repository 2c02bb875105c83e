/**
  The JavaScript string operations the user controller relies on:
  `String.prototype.trim`, `String.prototype.toLowerCase` and truthiness of
  an optional string.  Characters are Unicode scalar values.
 */
module JsString {
  import opened Wrappers

  /** The WhiteSpace and LineTerminator code points that `trim` strips
      (sections 12.2 and 12.3 of ECMA-262). */
  predicate IsTrimmable(c: char) {
    var n := c as int;
    || n == 0x09 || n == 0x0A || n == 0x0B || n == 0x0C || n == 0x0D
    || n == 0x20 || n == 0xA0 || n == 0x1680
    || (0x2000 <= n <= 0x200A)
    || n == 0x2028 || n == 0x2029 || n == 0x202F || n == 0x205F
    || n == 0x3000 || n == 0xFEFF
  }

  /** Every character of `s` is one that `trim` strips. */
  predicate AllTrimmable(s: string) {
    forall i :: 0 <= i < |s| ==> IsTrimmable(s[i])
  }

  /** The end of the whitespace run that starts at `from`: the first index
      at or after `from` holding a non-whitespace character, or `|s|`. */
  function SkipForward(s: string, from: nat): (k: nat)
    requires from <= |s|
    ensures from <= k <= |s|
    ensures forall i :: from <= i < k ==> IsTrimmable(s[i])
    ensures k < |s| ==> !IsTrimmable(s[k])
    decreases |s| - from
  {
    if from == |s| || !IsTrimmable(s[from]) then from else SkipForward(s, from + 1)
  }

  /** The start of the whitespace run that ends at `hi`, looking no further
      back than `lo`: the index just after the last non-whitespace
      character in `s[lo..hi]`, or `lo`. */
  function SkipBackward(s: string, lo: nat, hi: nat): (j: nat)
    requires lo <= hi <= |s|
    ensures lo <= j <= hi
    ensures forall i :: j <= i < hi ==> IsTrimmable(s[i])
    ensures j > lo ==> !IsTrimmable(s[j - 1])
    decreases hi
  {
    if hi == lo || !IsTrimmable(s[hi - 1]) then hi else SkipBackward(s, lo, hi - 1)
  }

  /** Where the result of `Trim` starts inside its argument. */
  function TrimOffset(s: string): (k: nat)
    ensures k <= |s|
    ensures forall i :: 0 <= i < k ==> IsTrimmable(s[i])
  {
    SkipForward(s, 0)
  }

  /** `String.prototype.trim`: the result is the piece of `s` between a
      whitespace-only prefix and a whitespace-only suffix, with no
      whitespace at either of its own ends; it is empty exactly when `s`
      consists of whitespace only. */
  function Trim(s: string): (r: string)
    ensures TrimOffset(s) + |r| <= |s| && r == s[TrimOffset(s)..TrimOffset(s) + |r|]
    ensures forall i :: 0 <= i < TrimOffset(s) ==> IsTrimmable(s[i])
    ensures forall i :: TrimOffset(s) + |r| <= i < |s| ==> IsTrimmable(s[i])
    ensures r != [] ==> !IsTrimmable(r[0]) && !IsTrimmable(r[|r| - 1])
    ensures r == [] <==> AllTrimmable(s)
  {
    var k := SkipForward(s, 0);
    var j := SkipBackward(s, k, |s|);
    assert k < j ==> s[k..j][0] == s[k] && s[k..j][j - k - 1] == s[j - 1];
    s[k..j]
  }

  /** The JavaScript truthiness of a value that is a string or `undefined`:
      `undefined` and `""` are falsy. */
  predicate Truthy(v: Option<string>) {
    v.Some? && v.value != ""
  }

  /** The upper-case letters this model lower-cases: ASCII A-Z and the
      Latin-1 letters U+00C0..U+00DE except the multiplication sign U+00D7.
      The other Unicode upper-case letters are outside the model. */
  predicate IsUpper(c: char) {
    var n := c as int;
    ('A' <= c <= 'Z') || (0xC0 <= n <= 0xDE && n != 0xD7)
  }

  /** Lower-cases one character; in both letter ranges the lower-case form
      lies 0x20 code points above the upper-case one. */
  function LowerChar(c: char): (d: char)
    ensures !IsUpper(d)
    ensures IsTrimmable(d) <==> IsTrimmable(c)
    ensures IsUpper(c) ==> d as int == c as int + 0x20
    ensures !IsUpper(c) ==> d == c
  {
    if IsUpper(c) then (c as int + 0x20) as char else c
  }

  /** No character of `s` is an upper-case letter. */
  predicate IsLowerCase(s: string) {
    forall i :: 0 <= i < |s| ==> !IsUpper(s[i])
  }

  /** `String.prototype.toLowerCase`, character by character. */
  function ToLower(s: string): (r: string)
    ensures |r| == |s|
    ensures IsLowerCase(r)
    ensures forall i :: 0 <= i < |s| ==> r[i] == LowerChar(s[i])
  {
    if s == [] then [] else [LowerChar(s[0])] + ToLower(s[1..])
  }

  /** Lower-casing leaves a string alone exactly when it has no upper-case
      letter. */
  lemma {:induction false} ToLowerFixedPoint(s: string)
    ensures ToLower(s) == s <==> IsLowerCase(s)
  {
    if IsLowerCase(s) {
      assert forall i :: 0 <= i < |s| ==> ToLower(s)[i] == s[i];
    }
  }

  /** Lower-casing twice is lower-casing once: a stored user name is
      already in the form a second lower-casing would give. */
  lemma ToLowerIdempotent(s: string)
    ensures ToLower(ToLower(s)) == ToLower(s)
  {
    ToLowerFixedPoint(ToLower(s));
  }

  /** Lower-casing identifies two strings that differ only in the case of
      their letters: `ToLower` is not injective. */
  lemma ToLowerMergesCase()
    ensures ToLower("AnnL") == ToLower("annl") == "annl"
  {
    assert ToLower("L") == "l";
    assert ToLower("nL") == "nl";
    assert ToLower("nnL") == "nnl";
    assert ToLower("l") == "l";
    assert ToLower("nl") == "nl";
    assert ToLower("nnl") == "nnl";
  }
}
