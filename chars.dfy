/** Character classes and the few Python `str` operations the core relies on.
    Regular-expression classes and `lower()` are taken over ASCII; `isspace`
    follows Python's own list of whitespace code points. */
module Chars {

  /** `[A-Z]` */
  predicate IsUpper(c: char) { 'A' <= c <= 'Z' }

  /** `[a-z]` */
  predicate IsLower(c: char) { 'a' <= c <= 'z' }

  /** `\d`, restricted to ASCII digits. */
  predicate IsDigit(c: char) { '0' <= c <= '9' }

  /** The characters of the class `[!@#$%^&*(),.?":{}|<>]`. */
  const SpecialChars: string := "!@#$%^&*(),.?\":{}|<>"

  predicate IsSpecial(c: char) { c in SpecialChars }

  /** The class `[\x00-\x1f\x7f-\x9f]`: C0 controls, DEL and C1 controls. */
  predicate IsControl(c: char) {
    0 <= c as int <= 0x1F || 0x7F <= c as int <= 0x9F
  }

  /** Python's `str.isspace()`. */
  predicate IsSpace(c: char) {
    var n := c as int;
    (0x09 <= n <= 0x0D) || (0x1C <= n <= 0x20) || n == 0x85 || n == 0xA0 ||
    n == 0x1680 || (0x2000 <= n <= 0x200A) || n == 0x2028 || n == 0x2029 ||
    n == 0x202F || n == 0x205F || n == 0x3000
  }

  /** Whether some character of `s` satisfies `p` (what `re.search` with a
      one-character class decides). */
  predicate Any(s: string, p: char -> bool) {
    exists i | 0 <= i < |s| :: p(s[i])
  }

  /** ASCII `lower()` of one character. */
  function LowerChar(c: char): (r: char)
    ensures IsUpper(c) ==> IsLower(r) && r as int == c as int + 32
    ensures !IsUpper(c) ==> r == c
  {
    if IsUpper(c) then (c as int + 32) as char else c
  }

  /** ASCII `str.lower()`. */
  function Lower(s: string): (r: string)
    ensures |r| == |s|
    ensures forall i | 0 <= i < |s| :: r[i] == LowerChar(s[i])
  {
    seq(|s|, i requires 0 <= i < |s| => LowerChar(s[i]))
  }

  /** `str.replace(c, "")`: every occurrence of `c` removed, the rest kept in order. */
  function RemoveAll(s: string, c: char): (r: string)
    ensures |r| <= |s|
    ensures c !in r
    ensures forall x :: x in r <==> x in s && x != c
    ensures r == Filter(s, y => y != c)
  {
    if s == [] then []
    else if s[0] == c then RemoveAll(s[1..], c)
    else [s[0]] + RemoveAll(s[1..], c)
  }

  /** Every character of `s` that `keep` accepts, in order. */
  function Filter(s: string, keep: char -> bool): (r: string)
    ensures |r| <= |s|
    ensures forall i | 0 <= i < |r| :: keep(r[i])
    ensures forall x :: x in r <==> x in s && keep(x)
  {
    if s == [] then []
    else if keep(s[0]) then [s[0]] + Filter(s[1..], keep)
    else Filter(s[1..], keep)
  }

  /** Filtering a concatenation filters each part and keeps them in order. */
  lemma {:induction false} FilterAppend(a: string, b: string, keep: char -> bool)
    ensures Filter(a + b, keep) == Filter(a, keep) + Filter(b, keep)
  {
    if a != [] {
      assert (a + b)[0] == a[0] && (a + b)[1..] == a[1..] + b;
      FilterAppend(a[1..], b, keep);
    } else {
      assert a + b == b;
    }
  }

  /** Filtering keeps a string whose characters all pass unchanged. */
  lemma {:induction false} FilterKeepsAll(s: string, keep: char -> bool)
    requires forall i | 0 <= i < |s| :: keep(s[i])
    ensures Filter(s, keep) == s
  {
    if s != [] {
      FilterKeepsAll(s[1..], keep);
    }
  }

  /** `str.lstrip()`: leading whitespace removed. */
  function StripLeft(s: string): (r: string)
    ensures |r| <= |s| && r == s[|s| - |r|..]
    ensures r == [] || !IsSpace(r[0])
    ensures forall i | 0 <= i < |s| - |r| :: IsSpace(s[i])
  {
    if s != [] && IsSpace(s[0]) then StripLeft(s[1..]) else s
  }

  /** `str.rstrip()`: trailing whitespace removed. */
  function StripRight(s: string): (r: string)
    ensures |r| <= |s| && r == s[..|r|]
    ensures r == [] || !IsSpace(r[|r| - 1])
    ensures forall i | |r| <= i < |s| :: IsSpace(s[i])
  {
    if s != [] && IsSpace(s[|s| - 1]) then StripRight(s[..|s| - 1]) else s
  }

  /** `r` is `s[i..j]` and everything of `s` outside that window is whitespace. */
  predicate TrimmedFrom(s: string, r: string, i: nat, j: nat) {
    i <= j <= |s| && r == s[i..j] &&
    (forall k | 0 <= k < i :: IsSpace(s[k])) &&
    (forall k | j <= k < |s| :: IsSpace(s[k]))
  }

  /** `str.strip()`: a contiguous piece of the input, with only whitespace
      cut off on either side, that neither starts nor ends with whitespace. */
  function Strip(s: string): (r: string)
    ensures exists i: nat, j: nat :: TrimmedFrom(s, r, i, j)
    ensures r == [] || (!IsSpace(r[0]) && !IsSpace(r[|r| - 1]))
  {
    var left := StripLeft(s);
    var r := StripRight(left);
    StripWindow(s, left, r);
    assert r != [] ==> r[0] == left[0];
    r
  }

  lemma StripWindow(s: string, left: string, r: string)
    requires left == StripLeft(s) && r == StripRight(left)
    ensures exists i: nat, j: nat :: TrimmedFrom(s, r, i, j)
  {
    var i := |s| - |left|;
    WindowOfSuffix(s, left, r, i);
    assert TrimmedFrom(s, r, i, i + |r|);
  }

  /** A prefix of a suffix is a window, and whitespace after the prefix is
      whitespace after the window. */
  lemma WindowOfSuffix(s: string, left: string, r: string, i: nat)
    requires i <= |s| && left == s[i..] && |r| <= |left| && r == left[..|r|]
    requires forall k | |r| <= k < |left| :: IsSpace(left[k])
    ensures r == s[i..i + |r|]
    ensures forall k | i + |r| <= k < |s| :: IsSpace(s[k])
  {
    forall k | i + |r| <= k < |s|
      ensures IsSpace(s[k])
    {
      assert s[k] == left[k - i];
    }
  }

  // ---------------------------------------------------------------------
  // `sep.join(parts)`

  /** Where part `k` starts in `sep.join(parts)`: after every earlier part
      and its separator. */
  function PartStart(parts: seq<string>, sep: string, k: nat): nat
    requires k <= |parts|
  {
    if k == 0 then 0 else PartStart(parts, sep, k - 1) + |parts[k - 1]| + |sep|
  }

  /** Part `k` sits at its start in `r`. */
  predicate PartAt(r: string, parts: seq<string>, sep: string, k: nat)
    requires k < |parts|
  {
    var p := PartStart(parts, sep, k);
    p + |parts[k]| <= |r| && r[p..p + |parts[k]|] == parts[k]
  }

  /** The separator follows part `k` in `r`. */
  predicate SepAt(r: string, parts: seq<string>, sep: string, k: nat)
    requires k < |parts|
  {
    var q := PartStart(parts, sep, k) + |parts[k]|;
    q + |sep| <= |r| && r[q..q + |sep|] == sep
  }

  /** `r` is `parts` laid out with `sep` between neighbours: each part at its
      start, each separator right after its part, and nothing after the last
      part. */
  predicate LaidOut(r: string, parts: seq<string>, sep: string) {
    (parts == [] ==> r == []) &&
    (parts != [] ==> |r| == PartStart(parts, sep, |parts| - 1) + |parts[|parts| - 1]|) &&
    (forall k | 0 <= k < |parts| :: PartAt(r, parts, sep, k)) &&
    (forall k | 0 <= k < |parts| - 1 :: SepAt(r, parts, sep, k))
  }

  /** `sep.join(parts)`. */
  function Join(parts: seq<string>, sep: string): (r: string)
    ensures LaidOut(r, parts, sep)
  {
    if parts == [] then ""
    else if |parts| == 1 then
      assert PartAt(parts[0], parts, sep, 0);
      parts[0]
    else
      var rest := Join(parts[1..], sep);
      ConsLaidOut(parts, sep, rest);
      parts[0] + sep + rest
  }

  /** Dropping the first part moves every later start back by that part and
      one separator. */
  lemma {:induction false} PartStartShift(parts: seq<string>, sep: string, k: nat)
    requires 1 <= k <= |parts|
    ensures PartStart(parts, sep, k) == |parts[0]| + |sep| + PartStart(parts[1..], sep, k - 1)
  {
    if k > 1 {
      PartStartShift(parts, sep, k - 1);
      assert parts[1..][k - 2] == parts[k - 1];
    }
  }

  /** A window of the tail of `r` is the same window of `r`, shifted. */
  /** A laid-out join starts with its first part and ends with its last. */
  lemma LaidOutEnds(r: string, parts: seq<string>, sep: string)
    requires parts != [] && LaidOut(r, parts, sep)
    ensures |parts[0]| <= |r| && r[..|parts[0]|] == parts[0]
    ensures |parts[|parts| - 1]| <= |r| && r[|r| - |parts[|parts| - 1]|..] == parts[|parts| - 1]
  {
    assert PartAt(r, parts, sep, 0);
    assert PartAt(r, parts, sep, |parts| - 1);
  }

  lemma SliceShift(r: string, h: nat, rest: string, x: nat, n: nat)
    requires h <= |r| && r[h..] == rest && x + n <= |rest|
    ensures h + x + n <= |r| && r[h + x..h + x + n] == rest[x..x + n]
  {
    assert r[h..][x..x + n] == r[h + x..h + x + n];
  }

  /** Putting a part and a separator in front of a laid-out rest lays out
      the whole list. */
  lemma ConsLaidOut(parts: seq<string>, sep: string, rest: string)
    requires |parts| >= 2 && LaidOut(rest, parts[1..], sep)
    ensures LaidOut(parts[0] + sep + rest, parts, sep)
  {
    var r := parts[0] + sep + rest;
    var h := |parts[0]| + |sep|;
    var tail := parts[1..];
    assert r[h..] == rest;
    assert r[..|parts[0]|] == parts[0];
    assert r[|parts[0]|..h] == sep;
    assert PartAt(r, parts, sep, 0) && SepAt(r, parts, sep, 0);
    forall k | 1 <= k < |parts|
      ensures PartAt(r, parts, sep, k)
    {
      assert PartAt(rest, tail, sep, k - 1);
      ConsPartAt(parts, sep, rest, r, k);
    }
    forall k | 1 <= k < |parts| - 1
      ensures SepAt(r, parts, sep, k)
    {
      assert SepAt(rest, tail, sep, k - 1);
      ConsSepAt(parts, sep, rest, r, k);
    }
    PartStartShift(parts, sep, |parts| - 1);
    assert tail[|tail| - 1] == parts[|parts| - 1];
  }

  lemma ConsPartAt(parts: seq<string>, sep: string, rest: string, r: string, k: nat)
    requires 1 <= k < |parts| && r == parts[0] + sep + rest
    requires PartAt(rest, parts[1..], sep, k - 1)
    ensures PartAt(r, parts, sep, k)
  {
    var h := |parts[0]| + |sep|;
    assert r[h..] == rest;
    assert parts[1..][k - 1] == parts[k];
    PartStartShift(parts, sep, k);
    SliceShift(r, h, rest, PartStart(parts[1..], sep, k - 1), |parts[k]|);
  }

  lemma ConsSepAt(parts: seq<string>, sep: string, rest: string, r: string, k: nat)
    requires 1 <= k < |parts| && r == parts[0] + sep + rest
    requires SepAt(rest, parts[1..], sep, k - 1)
    ensures SepAt(r, parts, sep, k)
  {
    var h := |parts[0]| + |sep|;
    assert r[h..] == rest;
    assert parts[1..][k - 1] == parts[k];
    PartStartShift(parts, sep, k);
    SliceShift(r, h, rest, PartStart(parts[1..], sep, k - 1) + |parts[k]|, |sep|);
  }
}
