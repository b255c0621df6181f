/** The ASCII part of Python's `str` methods that the scraper relies on:
    `lower`, `strip`, `rstrip(c)`, `startswith`, `endswith` and `in`. */
module Text {

  /** Python's `str.isspace`, restricted to ASCII: tab, line feed, vertical tab,
      form feed, carriage return, the four separators 0x1C-0x1F and space. */
  predicate IsSpace(c: char) {
    var n := c as int;
    n == 32 || 9 <= n <= 13 || 28 <= n <= 31
  }

  predicate IsUpper(c: char) { 'A' <= c <= 'Z' }

  function LowerChar(c: char): (d: char)
    ensures !IsUpper(d)
    ensures IsUpper(c) ==> d as int == c as int + 32
    ensures !IsUpper(c) ==> d == c
  {
    if IsUpper(c) then (c as int + 32) as char else c
  }

  /** Python's `s.lower()` on ASCII text. */
  function Lower(s: string): (r: string)
    ensures |r| == |s|
    ensures forall i :: 0 <= i < |s| ==> r[i] == LowerChar(s[i])
  {
    seq(|s|, i requires 0 <= i < |s| => LowerChar(s[i]))
  }

  predicate NoUpper(s: string) {
    forall i :: 0 <= i < |s| ==> !IsUpper(s[i])
  }

  lemma LowerOfNoUpper(s: string)
    requires NoUpper(s)
    ensures Lower(s) == s
  {
  }

  lemma LowerIdempotent(s: string)
    ensures NoUpper(Lower(s))
    ensures Lower(Lower(s)) == Lower(s)
  {
    LowerOfNoUpper(Lower(s));
  }

  /** Python's `s.lstrip()`: drops every leading whitespace character. */
  function LStrip(s: string): (r: string)
    ensures |r| <= |s|
    ensures forall i :: 0 <= i < |s| - |r| ==> IsSpace(s[i])
    ensures r == [] || !IsSpace(r[0])
  {
    if |s| > 0 && IsSpace(s[0]) then LStrip(s[1..]) else s
  }

  /** What `lstrip` leaves is a suffix of its argument. */
  lemma {:induction false} LStripSuffix(s: string)
    ensures LStrip(s) == s[|s| - |LStrip(s)|..]
    decreases |s|
  {
    if |s| > 0 && IsSpace(s[0]) {
      LStripSuffix(s[1..]);
    }
  }

  /** Python's `s.rstrip()`: drops every trailing whitespace character. */
  function RStrip(s: string): (r: string)
    ensures |r| <= |s| && r == s[..|r|]
    ensures forall i :: |r| <= i < |s| ==> IsSpace(s[i])
    ensures r == [] || !IsSpace(r[|r| - 1])
  {
    if |s| > 0 && IsSpace(s[|s| - 1]) then RStrip(s[..|s| - 1]) else s
  }

  /** A string with no whitespace at either end. */
  predicate Trimmed(s: string) {
    s == [] || (!IsSpace(s[0]) && !IsSpace(s[|s| - 1]))
  }

  /** Python's `s.strip()`. */
  function Strip(s: string): (r: string)
    ensures |r| <= |s|
    ensures Trimmed(r)
  {
    var l := LStrip(s);
    var r := RStrip(l);
    assert r == [] || r[0] == l[0];
    r
  }

  /** Stripping keeps a run of the original characters, so whatever holds of every
      character of `s` holds of every character of `Strip(s)`. */
  lemma StripKeeps(s: string, p: char -> bool)
    requires forall i :: 0 <= i < |s| ==> p(s[i])
    ensures forall i :: 0 <= i < |Strip(s)| ==> p(Strip(s)[i])
  {
    var l := LStrip(s);
    var r := RStrip(l);
    LStripSuffix(s);
    forall i | 0 <= i < |r| ensures p(r[i]) {
      assert r[i] == l[i] == s[|s| - |l| + i];
    }
  }

  /** `r` is the run of `s` that starts at `a`, and every character of `s` outside it is
      whitespace. */
  predicate Window(s: string, r: string, a: nat) {
    a + |r| <= |s| &&
    (forall i :: 0 <= i < |r| ==> r[i] == s[a + i]) &&
    (forall i :: 0 <= i < |s| && (i < a || a + |r| <= i) ==> IsSpace(s[i]))
  }

  /** `Strip(s)` is the window of `s` that starts after its leading whitespace. */
  lemma StripWindow(s: string) returns (a: nat)
    ensures Window(s, Strip(s), a)
  {
    var l := LStrip(s);
    a := |s| - |l|;
    LStripSuffix(s);
    TrimmedWindow(s, l, RStrip(l));
  }

  /** A prefix `r` of a suffix `l` of `s`, with whitespace cut off on both sides. */
  lemma TrimmedWindow(s: string, l: string, r: string)
    requires |l| <= |s| && l == s[|s| - |l|..] && forall i :: 0 <= i < |s| - |l| ==> IsSpace(s[i])
    requires |r| <= |l| && r == l[..|r|] && forall i :: |r| <= i < |l| ==> IsSpace(l[i])
    ensures Window(s, r, |s| - |l|)
  {
    var a := |s| - |l|;
    forall i | 0 <= i < |r| ensures r[i] == s[a + i] {
      assert r[i] == l[i];
    }
    forall i | 0 <= i < |s| && (i < a || a + |r| <= i) ensures IsSpace(s[i]) {
      if a + |r| <= i {
        assert s[i] == l[i - a];
      }
    }
  }

  /** `s` holds no `c`: Python's `c not in s`, stated position by position. */
  predicate NoChar(s: string, c: char) {
    forall k :: 0 <= k < |s| ==> s[k] != c
  }

  lemma StripOfTrimmed(s: string)
    requires Trimmed(s)
    ensures Strip(s) == s
  {
  }

  lemma StripIdempotent(s: string)
    ensures Strip(Strip(s)) == Strip(s)
  {
    StripOfTrimmed(Strip(s));
  }

  /** Python's `s.rstrip(c)` for a one-character argument: drops every trailing `c`. */
  function RStripChar(s: string, c: char): (r: string)
    ensures |r| <= |s| && r == s[..|r|]
    ensures forall i :: |r| <= i < |s| ==> s[i] == c
    ensures r == [] || r[|r| - 1] != c
  {
    if |s| > 0 && s[|s| - 1] == c then RStripChar(s[..|s| - 1], c) else s
  }

  predicate StartsWith(s: string, prefix: string) {
    |prefix| <= |s| && s[..|prefix|] == prefix
  }

  predicate EndsWith(s: string, suffix: string) {
    |suffix| <= |s| && s[|s| - |suffix|..] == suffix
  }

  /** Python's `sub in s`. */
  predicate Contains(s: string, sub: string)
    decreases |s|
  {
    StartsWith(s, sub) || (|sub| < |s| && Contains(s[1..], sub))
  }

  /** `sub in s` holds when `sub` starts at some position of `s`. */
  lemma {:induction false} ContainsAt(s: string, sub: string, i: nat)
    requires i <= |s| && StartsWith(s[i..], sub)
    ensures Contains(s, sub)
    decreases i
  {
    if i > 0 {
      assert s[1..][i - 1..] == s[i..];
      ContainsAt(s[1..], sub, i - 1);
    }
  }

  /** Replaces every occurrence of `from` by `to` (Python's `s.replace(from, to)` for
      one-character arguments). */
  function ReplaceChar(s: string, from: char, to: char): (r: string)
    ensures |r| == |s|
    ensures forall i :: 0 <= i < |s| ==> r[i] == (if s[i] == from then to else s[i])
  {
    if s == [] then [] else [if s[0] == from then to else s[0]] + ReplaceChar(s[1..], from, to)
  }
}
