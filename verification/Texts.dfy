/** Python's whitespace (what `str.isspace`, `lstrip`, `split` and `\s` see),
    and texts that hold a string at a position. */
module Texts {
  predicate IsSpace(c: char) {
    || '\U{9}' <= c <= '\U{d}' || '\U{1c}' <= c <= ' ' || c == '\U{85}' || c == '\U{a0}'
    || c == '\U{1680}' || '\U{2000}' <= c <= '\U{200a}' || c == '\U{2028}' || c == '\U{2029}'
    || c == '\U{202f}' || c == '\U{205f}' || c == '\U{3000}'
  }

  /** In ASCII: tab, newline, vertical tab, form feed, return, the four
      separators, and the blank. */
  lemma AsciiSpaces(c: char)
    requires c < '\U{7f}'
    ensures IsSpace(c) <==>
      || c == '\t' || c == '\n' || c == '\U{b}' || c == '\U{c}' || c == '\r'
      || c == '\U{1c}' || c == '\U{1d}' || c == '\U{1e}' || c == '\U{1f}' || c == ' '
  {
  }

  predicate AllSpace(s: string) {
    forall i :: 0 <= i < |s| ==> IsSpace(s[i])
  }

  /** The first position at or after `i` that is not whitespace. */
  function SkipSpace(text: string, i: nat): (r: nat)
    requires i <= |text|
    ensures i <= r <= |text| && (r < |text| ==> !IsSpace(text[r]))
    decreases |text| - i
  {
    if i < |text| && IsSpace(text[i]) then SkipSpace(text, i + 1) else i
  }

  /** Skipping stops at a known non-space behind known spaces. */
  lemma {:induction false} SkipSpaceStops(text: string, i: nat, j: nat)
    requires i <= j <= |text| && (j < |text| ==> !IsSpace(text[j]))
    requires forall k :: i <= k < j ==> IsSpace(text[k])
    ensures SkipSpace(text, i) == j
    decreases j - i
  {
    if i < j {
      SkipSpaceStops(text, i + 1, j);
    }
  }

  /** `text` holds `s` at position `i`. */
  predicate Holds(text: string, i: nat, s: string) {
    i + |s| <= |text| && forall k :: 0 <= k < |s| ==> text[i + k] == s[k]
  }

  /** A held concatenation, taken apart; `j` is where the second part starts. */
  lemma HoldsParts(text: string, i: nat, a: string, b: string, j: nat)
    requires Holds(text, i, a + b) && j == i + |a|
    ensures Holds(text, i, a) && Holds(text, j, b)
  {
    forall k | 0 <= k < |a| ensures text[i + k] == a[k] { assert (a + b)[k] == a[k]; }
    forall k | 0 <= k < |b| ensures text[j + k] == b[k] {
      assert (a + b)[|a| + k] == b[k] && text[i + (|a| + k)] == (a + b)[|a| + k];
    }
  }

  lemma HoldsAt(text: string, i: nat, s: string, k: nat)
    requires Holds(text, i, s) && k < |s|
    ensures i + k < |text| && text[i + k] == s[k]
  {
  }

  /** Skipping whitespace passes exactly a block of it. */
  lemma SpacesPass(text: string, i: nat, s: string)
    requires AllSpace(s) && Holds(text, i, s) && i + |s| < |text| && !IsSpace(text[i + |s|])
    ensures SkipSpace(text, i) == i + |s|
  {
    forall k | i <= k < i + |s| ensures IsSpace(text[k]) { HoldsAt(text, i, s, k - i); }
    SkipSpaceStops(text, i, i + |s|);
  }
}
