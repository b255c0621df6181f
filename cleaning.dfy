/** `clean_csv_value`: the cell cleaner applied to every text field of a saved row. */
module Cleaning {
  import opened Text

  /** The three characters the cleaner turns into spaces. */
  predicate IsBreak(c: char) {
    c == '\n' || c == '\r' || c == '\t'
  }

  /** What the cleaner makes of one character: a break becomes a space, anything else stays. */
  function Spaced(c: char): char {
    if IsBreak(c) then ' ' else c
  }

  /** The three replacements of `clean_csv_value`, in the source's order. */
  function SpaceBreaks(value: string): (r: string)
    ensures |r| == |value|
    ensures forall i :: 0 <= i < |value| ==> r[i] == Spaced(value[i])
  {
    var n := ReplaceChar(value, '\n', ' ');
    var nr := ReplaceChar(n, '\r', ' ');
    var nrt := ReplaceChar(nr, '\t', ' ');
    assert forall i :: 0 <= i < |value| ==> nrt[i] == Spaced(value[i]) by {
      forall i | 0 <= i < |value| ensures nrt[i] == Spaced(value[i]) {
        assert nr[i] == (if n[i] == '\r' then ' ' else n[i]);
      }
    }
    nrt
  }

  /** A falsy (empty) value gives ""; otherwise line feeds, carriage returns and tabs
      become spaces and the result is stripped. So the result is a run of the value's
      characters, in place and with breaks turned into spaces, and everything cut off on
      either side was whitespace or a break. */
  function CleanCsvValue(value: string): (r: string)
    ensures value == "" ==> r == ""
    ensures Trimmed(r)
    ensures forall i :: 0 <= i < |r| ==> !IsBreak(r[i])
    ensures value != "" ==> exists a: nat :: CutAt(value, r, a)
  {
    if value == "" then ""
    else
      var spaced := SpaceBreaks(value);
      StripKeeps(spaced, c => !IsBreak(c));
      SpacedCut(value, spaced);
      Strip(spaced)
  }

  /** `r` is the run of `value` that starts at `a`, with breaks turned into spaces, and
      every character of `value` outside that run is whitespace or a break. */
  predicate CutAt(value: string, r: string, a: nat) {
    a + |r| <= |value| &&
    (forall i :: 0 <= i < |r| ==> r[i] == Spaced(value[a + i])) &&
    (forall i :: 0 <= i < |value| && (i < a || a + |r| <= i) ==> IsSpace(Spaced(value[i])))
  }

  lemma SpacedCut(value: string, spaced: string)
    requires spaced == SpaceBreaks(value)
    ensures exists a: nat :: CutAt(value, Strip(spaced), a)
  {
    var a := StripWindow(spaced);
    CutOfWindow(value, spaced, Strip(spaced), a);
  }

  /** A window of `s` is a cut of `value` when `s` is `value` with its breaks turned into
      spaces. */
  lemma CutOfWindow(value: string, s: string, r: string, a: nat)
    requires |s| == |value| && forall i :: 0 <= i < |value| ==> s[i] == Spaced(value[i])
    requires Window(s, r, a)
    ensures CutAt(value, r, a)
  {
    forall i | 0 <= i < |r| ensures r[i] == Spaced(value[a + i]) {
      assert r[i] == s[a + i];
    }
    forall i | 0 <= i < |value| && (i < a || a + |r| <= i) ensures IsSpace(Spaced(value[i])) {
      assert IsSpace(s[i]);
    }
  }

  /** A value that is already trimmed and holds no break characters is left as it is. */
  lemma CleanCsvValueFixes(value: string)
    requires Trimmed(value)
    requires forall i :: 0 <= i < |value| ==> !IsBreak(value[i])
    ensures CleanCsvValue(value) == value
  {
    if value != "" {
      assert SpaceBreaks(value) == value by {
        forall i | 0 <= i < |value| ensures SpaceBreaks(value)[i] == value[i] {
        }
      }
      StripOfTrimmed(value);
    }
  }

  /** Cleaning twice is cleaning once. */
  lemma CleanCsvValueIdempotent(value: string)
    ensures CleanCsvValue(CleanCsvValue(value)) == CleanCsvValue(value)
  {
    CleanCsvValueFixes(CleanCsvValue(value));
  }
}
