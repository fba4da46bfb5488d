/** The small Option type the extractor returns (Python's `None` or a value). */
module Wrappers {
  datatype Option<+T> = None | Some(value: T)
}

/**
 * The Python string built-ins the endpoint relies on: `str.isspace` (through
 * `str.strip`), `str.lower` and the substring test `key in text`.
 * Case mapping is restricted to ASCII.
 */
module PyText {

  /** `c.isspace()`: the characters Python's `str.strip()` removes. */
  predicate IsSpace(c: char) {
    || c == ' '
    || '\U{9}' <= c <= '\U{D}'      // \t \n \v \f \r
    || '\U{1C}' <= c <= '\U{1F}'    // file, group, record and unit separators
    || c == '\U{85}' || c == '\U{A0}' || c == '\U{1680}'
    || '\U{2000}' <= c <= '\U{200A}'
    || c == '\U{2028}' || c == '\U{2029}' || c == '\U{202F}'
    || c == '\U{205F}' || c == '\U{3000}'
  }

  /** `c.lower()` on ASCII letters; every other character is left alone. */
  function Lower(c: char): (d: char)
    ensures ('A' <= c <= 'Z') == ('a' <= d <= 'z' && d != c)
    ensures 'A' <= c <= 'Z' ==> d as int == c as int + 32
    ensures !('A' <= c <= 'Z') ==> d == c
  {
    if 'A' <= c <= 'Z' then (c as int + 32) as char else c
  }

  /** `t.lower()`: each character mapped by `Lower`, the length unchanged. */
  function LowerStr(t: string): (r: string)
    ensures |r| == |t|
    ensures forall k :: 0 <= k < |t| ==> r[k] == Lower(t[k])
  {
    if t == [] then [] else [Lower(t[0])] + LowerStr(t[1..])
  }

  /** `key` occurs in `t` starting at position `i`. */
  predicate OccursAt(key: string, t: string, i: nat) {
    i + |key| <= |t| && t[i..i + |key|] == key
  }

  /** `key in t` for two strings: `key` occurs in `t` as a contiguous substring. */
  function IsSubstring(key: string, t: string): (b: bool)
    ensures key == [] ==> b
    ensures b ==> |key| <= |t|
    ensures key == t ==> b
  {
    assert key == [] || key == t ==> OccursAt(key, t, 0);
    exists i: nat :: i <= |t| && OccursAt(key, t, i)
  }

  /** No whitespace at either end: what `strip()` guarantees of its result. */
  predicate IsTrimmed(t: string) {
    t == [] || (!IsSpace(t[0]) && !IsSpace(t[|t| - 1]))
  }

  /** The first position from `i` on that does not hold whitespace, or `|t|`. */
  function SkipSpace(t: string, i: nat): (a: nat)
    requires i <= |t|
    decreases |t| - i
    ensures i <= a <= |t|
    ensures forall k :: i <= k < a ==> IsSpace(t[k])
    ensures a == |t| || !IsSpace(t[a])
  {
    if i < |t| && IsSpace(t[i]) then SkipSpace(t, i + 1) else i
  }

  /** Walking back from `j` to no further than `a`: the end of the last non-whitespace character. */
  function SkipSpaceBack(t: string, a: nat, j: nat): (b: nat)
    requires a <= j <= |t|
    decreases j
    ensures a <= b <= j
    ensures forall k :: b <= k < j ==> IsSpace(t[k])
    ensures b == a || !IsSpace(t[b - 1])
  {
    if a < j && IsSpace(t[j - 1]) then SkipSpaceBack(t, a, j - 1) else j
  }

  /** How many leading whitespace characters `t.strip()` removes. */
  function LeadingSpace(t: string): nat {
    SkipSpace(t, 0)
  }

  /**
   * `t.strip()`: the slice of `t` starting after its leading whitespace, with
   * whitespace only outside it and none at its two ends.
   */
  function Strip(t: string): (r: string)
    ensures IsTrimmed(r)
    ensures LeadingSpace(t) + |r| <= |t| && r == t[LeadingSpace(t)..LeadingSpace(t) + |r|]
    ensures forall k :: 0 <= k < LeadingSpace(t) ==> IsSpace(t[k])
    ensures forall k :: LeadingSpace(t) + |r| <= k < |t| ==> IsSpace(t[k])
  {
    var a := SkipSpace(t, 0);
    t[a..SkipSpaceBack(t, a, |t|)]
  }

  /** Stripping twice is stripping once. */
  lemma StripIdempotent(t: string)
    ensures Strip(Strip(t)) == Strip(t)
  {
    var r := Strip(t);
    assert SkipSpace(r, 0) == 0;
    assert SkipSpaceBack(r, 0, |r|) == |r|;
  }

  /** A trailing whitespace character never survives `strip()`. */
  lemma StripDropsTrailingSpace(t: string, c: char)
    requires IsSpace(c)
    ensures Strip(t + [c]) == Strip(t)
  {
    var u := t + [c];
    var a := SkipSpace(t, 0);
    SkipSpaceAppend(t, c, 0);
    if a < |t| {
      var b := SkipSpaceBack(t, a, |t|);
      calc {
        Strip(u);
        u[a..SkipSpaceBack(u, a, |u|)];
      == { assert u[|u| - 1] == c; }
        u[a..SkipSpaceBack(u, a, |t|)];
      == { SkipSpaceBackPrefix(t, c, a, |t|); }
        u[a..b];
      == { assert forall k :: a <= k < b ==> u[k] == t[k]; }
        t[a..b];
        Strip(t);
      }
    } else {
      // all of `t` is whitespace, and so is all of `u`
      assert SkipSpace(u, 0) == |u|;
    }
  }

  /** Appending a whitespace character moves the skip past the old end only if it already reached it. */
  lemma {:induction false} SkipSpaceAppend(t: string, c: char, i: nat)
    requires i <= |t| && IsSpace(c)
    decreases |t| - i
    ensures SkipSpace(t + [c], i) == if SkipSpace(t, i) == |t| then |t| + 1 else SkipSpace(t, i)
  {
    var u := t + [c];
    if i < |t| {
      assert u[i] == t[i];
      if IsSpace(t[i]) {
        SkipSpaceAppend(t, c, i + 1);
      }
    } else {
      assert u[i] == c;
      assert SkipSpace(u, i + 1) == |u|;
    }
  }

  /** Walking back from inside `t`, the character appended after it is never looked at. */
  lemma {:induction false} SkipSpaceBackPrefix(t: string, c: char, a: nat, j: nat)
    requires a < j <= |t|
    decreases j
    ensures SkipSpaceBack(t + [c], a, j) == SkipSpaceBack(t, a, j)
  {
    var u := t + [c];
    assert u[j - 1] == t[j - 1];
    if a < j - 1 && IsSpace(t[j - 1]) {
      SkipSpaceBackPrefix(t, c, a, j - 1);
    }
  }
}
