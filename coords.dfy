/** `extract_lat_lng`: the leftmost match of `!3d([-+]?\d+\.\d+)!4d([-+]?\d+\.\d+)` in the
    page URL, digits being ASCII digits. */
module Coords {
  import opened Wrappers
  import opened Text

  predicate IsDigit(c: char) { '0' <= c <= '9' }

  /** The length of the optional sign `[-+]?` at the head of `t`. */
  function SignLen(t: string): (n: nat)
    ensures n <= 1 && n <= |t|
  {
    if |t| > 0 && (t[0] == '-' || t[0] == '+') then 1 else 0
  }

  /** The point at `p` splits `t`, past its sign, into two non-empty runs of digits. */
  predicate PointAt(t: string, p: int) {
    SignLen(t) < p < |t| - 1 && t[p] == '.' &&
    forall k :: SignLen(t) <= k < |t| && k != p ==> IsDigit(t[k])
  }

  /** What `[-+]?\d+\.\d+` matches as a whole: an optional sign, digits, a point, digits. */
  predicate IsSignedDecimal(t: string) {
    exists p :: SignLen(t) < p < |t| - 1 && PointAt(t, p)
  }

  /** The end of the run of digits that starts at `i` (a greedy `\d*`). */
  function DigitsEnd(s: string, i: nat): (j: nat)
    requires i <= |s|
    ensures i <= j <= |s|
    ensures forall k :: i <= k < j ==> IsDigit(s[k])
    ensures j == |s| || !IsDigit(s[j])
    decreases |s| - i
  {
    if i < |s| && IsDigit(s[i]) then DigitsEnd(s, i + 1) else i
  }

  /** Past the optional sign at `i`. */
  function SignEnd(s: string, i: nat): (k: nat)
    requires i <= |s|
  {
    if i < |s| && (s[i] == '-' || s[i] == '+') then i + 1 else i
  }

  /** Where `[-+]?\d+\.\d+` ends when matched at `i`. Every quantifier is greedy and nothing
      a shorter digit run could leave behind is a point or a `!`, so backtracking never
      finds another match: the greedy one is the only one. */
  function DecimalEnd(s: string, i: nat): (r: Option<nat>)
    requires i <= |s|
    ensures r.Some? ==> i < r.value <= |s|
    ensures r.Some? ==> r.value == |s| || !IsDigit(s[r.value])
  {
    var k := SignEnd(s, i);
    var d := DigitsEnd(s, k);
    if d == k || d == |s| || s[d] != '.' then None
    else
      var e := DigitsEnd(s, d + 1);
      if e == d + 1 then None else Some(e)
  }

  /** What the scan accepts is a signed decimal. */
  lemma DecimalEndSound(s: string, i: nat, e: nat)
    requires i <= |s| && DecimalEnd(s, i) == Some(e)
    ensures IsSignedDecimal(s[i..e])
  {
    var k := SignEnd(s, i);
    var d := DigitsEnd(s, k);
    var t := s[i..e];
    assert SignLen(t) == k - i;
    assert PointAt(t, d - i);
  }

  /** The marker `!<c>d` of the expression occurs at `i`. */
  predicate MarkAt(s: string, i: nat, c: char) {
    i + 3 <= |s| && s[i] == '!' && s[i + 1] == c && s[i + 2] == 'd'
  }

  /** The regular expression matched at position `i`: the two groups, or `None`. */
  function MatchAt(s: string, i: nat): (r: Option<(string, string)>)
    requires i <= |s|
  {
    if !MarkAt(s, i, '3') then None
    else match DecimalEnd(s, i + 3)
      case None => None
      case Some(e1) =>
        if !MarkAt(s, e1, '4') then None
        else match DecimalEnd(s, e1 + 3)
          case None => None
          case Some(e2) => Some((s[i + 3..e1], s[e1 + 3..e2]))
  }

  /** A match has both markers in place. */
  lemma MatchAtMarks(s: string, i: nat)
    requires i <= |s| && MatchAt(s, i).Some?
    ensures MarkAt(s, i, '3') && DecimalEnd(s, i + 3).Some?
    ensures MarkAt(s, DecimalEnd(s, i + 3).value, '4')
  {
  }

  /** A match is two signed decimals laid out as `!3d<lat>!4d<lng>`. */
  lemma MatchAtSound(s: string, i: nat)
    requires i <= |s| && MatchAt(s, i).Some?
    ensures var (lat, lng) := MatchAt(s, i).value;
      IsSignedDecimal(lat) && IsSignedDecimal(lng) &&
      StartsWith(s[i..], "!3d" + lat + "!4d" + lng)
  {
    var e1 := DecimalEnd(s, i + 3).value;
    var e2 := DecimalEnd(s, e1 + 3).value;
    MatchAtOf(s, i, e1, e2);
    PiecesSound(s, i, e1, e2);
  }

  lemma PiecesSound(s: string, i: nat, e1: nat, e2: nat)
    requires MarkAt(s, i, '3') && DecimalEnd(s, i + 3) == Some(e1)
    requires MarkAt(s, e1, '4') && DecimalEnd(s, e1 + 3) == Some(e2)
    ensures IsSignedDecimal(s[i + 3..e1]) && IsSignedDecimal(s[e1 + 3..e2])
    ensures StartsWith(s[i..], "!3d" + s[i + 3..e1] + "!4d" + s[e1 + 3..e2])
  {
    DecimalEndSound(s, i + 3, e1);
    DecimalEndSound(s, e1 + 3, e2);
    StartsWithPieces(s, i, e1, e2);
  }

  /** The marker read as text. */
  lemma MarkText(s: string, i: nat, c: char)
    requires MarkAt(s, i, c)
    ensures s[i..i + 3] == ['!', c, 'd'] && StartsWith(s[i..], ['!', c, 'd'])
  {
    assert s[i..][..3] == s[i..i + 3];
  }

  lemma StartsWithPieces(s: string, i: nat, e1: nat, e2: nat)
    requires i + 3 <= e1 && e1 + 3 <= e2 <= |s|
    requires MarkAt(s, i, '3') && MarkAt(s, e1, '4')
    ensures StartsWith(s[i..], "!3d" + s[i + 3..e1] + "!4d" + s[e1 + 3..e2])
  {
    MarkText(s, i, '3');
    MarkText(s, e1, '4');
    assert s[i..e2] == s[i..i + 3] + s[i + 3..e1] + s[e1..e1 + 3] + s[e1 + 3..e2];
    assert s[i..][..e2 - i] == s[i..e2];
  }

  /** The first position from `i` on where the expression matches (`re.search`). */
  function FirstMatch(s: string, i: nat): (r: Option<nat>)
    requires i <= |s|
    ensures r.Some? ==> i <= r.value <= |s|
    decreases |s| - i
  {
    if MatchAt(s, i).Some? then Some(i)
    else if i == |s| then None
    else FirstMatch(s, i + 1)
  }

  /** What the search returns is a position where the expression matches, */
  lemma {:induction false} FirstMatchMatches(s: string, i: nat)
    requires i <= |s| && FirstMatch(s, i).Some?
    ensures MatchAt(s, FirstMatch(s, i).value).Some?
    decreases |s| - i
  {
    if MatchAt(s, i).None? {
      FirstMatchMatches(s, i + 1);
    }
  }

  /** the leftmost one, */
  lemma {:induction false} FirstMatchLeftmost(s: string, i: nat, j: nat)
    requires i <= j <= |s| && FirstMatch(s, i).Some? && j < FirstMatch(s, i).value
    ensures MatchAt(s, j).None?
    decreases j - i
  {
    if i < j {
      FirstMatchSkip(s, i, FirstMatch(s, i).value);
      FirstMatchLeftmost(s, i + 1, j);
    } else {
      FirstMatchNotHere(s, i);
    }
  }

  /** A search from `i` that does not stop at `i` saw no match there. */
  lemma FirstMatchNotHere(s: string, i: nat)
    requires i <= |s| && FirstMatch(s, i) != Some(i)
    ensures MatchAt(s, i).None?
  {
  }

  /** A search that finds its match further on finds the same match one position later. */
  lemma FirstMatchSkip(s: string, i: nat, m: nat)
    requires i < m <= |s| && FirstMatch(s, i) == Some(m)
    ensures FirstMatch(s, i + 1) == Some(m)
  {
  }

  /** and finds one whenever there is one. */
  lemma {:induction false} FirstMatchNone(s: string, i: nat, j: nat)
    requires i <= j <= |s| && FirstMatch(s, i).None?
    ensures MatchAt(s, j).None?
    decreases j - i
  {
    FirstMatchNotHere(s, i);
    if i < j {
      FirstMatchNone(s, i + 1, j);
    }
  }

  /** `extract_lat_lng(url)`: both groups of the leftmost match, or `(None, None)`. */
  function ExtractLatLng(url: string): (r: (Option<string>, Option<string>))
    ensures r.0.Some? <==> r.1.Some?
  {
    match FirstMatch(url, 0)
    case None => (None, None)
    case Some(p) =>
      FirstMatchMatches(url, 0);
      var m := MatchAt(url, p).value;
      (Some(m.0), Some(m.1))
  }

  /** When coordinates are found they are two signed decimals that occur in the URL as
      `!3d<lat>!4d<lng>`, at the leftmost position where the expression matches. */
  lemma ExtractLatLngFound(url: string)
    requires ExtractLatLng(url).0.Some?
    ensures var (lat, lng) := ExtractLatLng(url);
      IsSignedDecimal(lat.value) && IsSignedDecimal(lng.value) &&
      exists p :: 0 <= p <= |url| && StartsWith(url[p..], "!3d" + lat.value + "!4d" + lng.value) &&
        forall j :: 0 <= j < p ==> MatchAt(url, j).None?
  {
    var p := FirstMatch(url, 0).value;
    FirstMatchMatches(url, 0);
    MatchAtSound(url, p);
    forall j | 0 <= j < p ensures MatchAt(url, j).None? {
      FirstMatchLeftmost(url, 0, j);
    }
    assert StartsWith(url[p..], "!3d" + ExtractLatLng(url).0.value + "!4d" + ExtractLatLng(url).1.value);
  }

  /** A URL without the `!4d` marker (a latitude with no longitude) yields neither value. */
  lemma ExtractLatLngNeedsLongitude(url: string)
    requires !Contains(url, "!4d")
    ensures ExtractLatLng(url) == (None, None)
  {
    match FirstMatch(url, 0)
    case None =>
    case Some(p) =>
      FirstMatchMatches(url, 0);
      MatchAtMarks(url, p);
      var e1 := DecimalEnd(url, p + 3).value;
      MarkText(url, e1, '4');
      ContainsAt(url, "!4d", e1);
  }

  /** Likewise without the `!3d` marker. */
  lemma ExtractLatLngNeedsLatitude(url: string)
    requires !Contains(url, "!3d")
    ensures ExtractLatLng(url) == (None, None)
  {
    match FirstMatch(url, 0)
    case None =>
    case Some(p) =>
      FirstMatchMatches(url, 0);
      MatchAtMarks(url, p);
      MarkText(url, p, '3');
      ContainsAt(url, "!3d", p);
  }

  lemma {:induction false} DigitsEndSkip(s: string, a: nat, b: nat)
    requires a <= b <= |s| && forall k :: a <= k < b ==> IsDigit(s[k])
    ensures DigitsEnd(s, a) == DigitsEnd(s, b)
    decreases b - a
  {
    if a < b {
      DigitsEndSkip(s, a + 1, b);
    }
  }

  /** The scan, given where its two digit runs end. */
  lemma DecimalEndOf(s: string, i: nat, d: nat, e: nat)
    requires i <= |s| && SignEnd(s, i) < d < |s| && s[d] == '.'
    requires DigitsEnd(s, SignEnd(s, i)) == d
    requires DigitsEnd(s, d + 1) == e > d + 1
    ensures DecimalEnd(s, i) == Some(e)
  {
  }

  /** Where the sign and the point of a signed decimal at `i` fall. */
  lemma DecimalShape(s: string, i: nat, j: nat) returns (d: nat)
    requires i <= j <= |s| && IsSignedDecimal(s[i..j])
    ensures SignEnd(s, i) < d < j - 1 && s[d] == '.'
    ensures forall m :: SignEnd(s, i) <= m < d ==> IsDigit(s[m])
    ensures forall m :: d < m < j ==> IsDigit(s[m])
  {
    var t := s[i..j];
    assert SignLen(t) == SignEnd(s, i) - i;
    var p :| SignLen(t) < p < |t| - 1 && PointAt(t, p);
    d := i + p;
    forall m | SignEnd(s, i) <= m < j && m != d ensures IsDigit(s[m]) {
      assert s[m] == t[m - i];
    }
  }

  /** Any signed decimal at `i` is found by the greedy scan, which then takes in every digit
      that follows it. */
  lemma DecimalEndComplete(s: string, i: nat, j: nat)
    requires i <= j <= |s| && IsSignedDecimal(s[i..j])
    ensures DecimalEnd(s, i) == Some(DigitsEnd(s, j))
  {
    var d := DecimalShape(s, i, j);
    DigitsEndSkip(s, SignEnd(s, i), d);
    DigitsEndSkip(s, d + 1, j);
    DecimalEndOf(s, i, d, DigitsEnd(s, j));
  }

  /** A signed decimal after `!3d` at `i` and another after `!4d` at `a` make a match at
      `i`, whose longitude takes in any digits that follow. */
  lemma MatchAtComplete(s: string, i: nat, a: nat, c: nat)
    requires i + 3 <= a && a + 3 <= c <= |s|
    requires MarkAt(s, i, '3') && IsSignedDecimal(s[i + 3..a])
    requires MarkAt(s, a, '4') && IsSignedDecimal(s[a + 3..c])
    ensures MatchAt(s, i) == Some((s[i + 3..a], s[a + 3..DigitsEnd(s, c)]))
  {
    assert DecimalEnd(s, i + 3) == Some(a) by {
      DecimalEndComplete(s, i + 3, a);
      assert DigitsEnd(s, a) == a by { assert !IsDigit(s[a]); }
    }
    assert DecimalEnd(s, a + 3) == Some(DigitsEnd(s, c)) by {
      DecimalEndComplete(s, a + 3, c);
    }
    MatchAtOf(s, i, a, DigitsEnd(s, c));
  }

  /** The match at `i`, given where its two decimals end. */
  lemma MatchAtOf(s: string, i: nat, e1: nat, e2: nat)
    requires MarkAt(s, i, '3') && DecimalEnd(s, i + 3) == Some(e1)
    requires MarkAt(s, e1, '4') && DecimalEnd(s, e1 + 3) == Some(e2)
    ensures MatchAt(s, i) == Some((s[i + 3..e1], s[e1 + 3..e2]))
  {
  }

  /** Hence coordinates are returned whenever the URL holds such a pair anywhere. */
  lemma ExtractLatLngComplete(url: string, i: nat, a: nat, c: nat)
    requires i + 3 <= a && a + 3 <= c <= |url|
    requires MarkAt(url, i, '3') && IsSignedDecimal(url[i + 3..a])
    requires MarkAt(url, a, '4') && IsSignedDecimal(url[a + 3..c])
    ensures ExtractLatLng(url).0.Some? && ExtractLatLng(url).1.Some?
  {
    MatchAtComplete(url, i, a, c);
    if FirstMatch(url, 0).None? {
      FirstMatchNone(url, 0, i);
    }
  }
}
