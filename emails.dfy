/** `is_business_email` and the selection loop of `fetch_emails`. */
module Emails {
  import opened Wrappers
  import opened Text

  const FREE_DOMAINS: seq<string> :=
    ["gmail.com", "yahoo.com", "hotmail.com", "outlook.com", "aol.com", "icloud.com", "live.com"]

  const PLACEHOLDERS: seq<string> :=
    ["user@domain.com", "example@example.com", "test@test.com"]

  /** Python's `s.split("@")[-1]`: the text after the last `@`, or all of `s` when it has none. */
  function AfterLastAt(s: string): (r: string)
    ensures NoChar(r, '@')
    ensures |r| <= |s|
    ensures |r| < |s| ==> s[|s| - |r| - 1] == '@'
  {
    if |s| == 0 then ""
    else if s[|s| - 1] == '@' then ""
    else AfterLastAt(s[..|s| - 1]) + [s[|s| - 1]]
  }

  /** The split-off domain is a suffix of the address. */
  lemma {:induction false} AfterLastAtIsSuffix(s: string)
    ensures AfterLastAt(s) == s[|s| - |AfterLastAt(s)|..]
    decreases |s|
  {
    if |s| > 0 && s[|s| - 1] != '@' {
      var t := s[..|s| - 1];
      AfterLastAtIsSuffix(t);
      assert s[|s| - |AfterLastAt(s)|..] == t[|t| - |AfterLastAt(t)|..] + [s[|s| - 1]];
    }
  }

  /** The form in which the source compares an address: `email.lower().strip()`. */
  function NormalizeEmail(email: string): string {
    Strip(Lower(email))
  }

  predicate IsBusinessEmail(email: string) {
    var e := NormalizeEmail(email);
    var domain := AfterLastAt(e);
    if e in PLACEHOLDERS then false else domain !in FREE_DOMAINS
  }

  /** `e` is `d` itself or ends in `@d`: the reading of "e is an address at domain d"
      that does not go through splitting. */
  predicate AtDomain(e: string, d: string) {
    e == d || EndsWith(e, "@" + d)
  }

  lemma {:induction false} AfterLastAtNoAt(s: string)
    requires NoChar(s, '@')
    ensures AfterLastAt(s) == s
  {
    if |s| > 0 {
      assert NoChar(s[..|s| - 1], '@');
      AfterLastAtNoAt(s[..|s| - 1]);
      assert s[..|s| - 1] + [s[|s| - 1]] == s;
    }
  }

  lemma {:induction false} AfterLastAtSuffix(p: string, d: string)
    requires NoChar(d, '@')
    ensures AfterLastAt(p + "@" + d) == d
    decreases |d|
  {
    var s := p + "@" + d;
    if |d| > 0 {
      var d' := d[..|d| - 1];
      assert s[..|s| - 1] == p + "@" + d';
      AfterLastAtSuffix(p, d');
      assert d' + [d[|d| - 1]] == d;
    }
  }

  /** The split-off domain is what the address is at. */
  lemma AtDomainOfAfterLastAt(e: string)
    ensures AtDomain(e, AfterLastAt(e))
  {
    var r := AfterLastAt(e);
    AfterLastAtIsSuffix(e);
    if |r| < |e| {
      EndsWithAtSuffix(e, r);
    }
  }

  /** A suffix of `e` that has `@` right before it is a suffix `@` and all. */
  lemma EndsWithAtSuffix(e: string, r: string)
    requires |r| < |e| && r == e[|e| - |r|..] && e[|e| - |r| - 1] == '@'
    ensures EndsWith(e, "@" + r)
  {
    var i := |e| - |r| - 1;
    assert e[i..] == [e[i]] + e[i + 1..];
  }

  /** An address at a domain with no `@` splits off exactly that domain. */
  lemma AfterLastAtOfAtDomain(e: string, d: string)
    requires NoChar(d, '@') && AtDomain(e, d)
    ensures AfterLastAt(e) == d
  {
    if e == d {
      AfterLastAtNoAt(e);
    } else {
      var p := e[..|e| - |d| - 1];
      assert e == p + "@" + d;
      AfterLastAtSuffix(p, d);
    }
  }

  /** For a domain with no `@`, "the text after the last @ is d" is "the address is at d". */
  lemma AfterLastAtIsDomain(e: string, d: string)
    requires NoChar(d, '@')
    ensures AfterLastAt(e) == d <==> AtDomain(e, d)
  {
    AtDomainOfAfterLastAt(e);
    if AtDomain(e, d) {
      AfterLastAtOfAtDomain(e, d);
    }
  }

  /** The classifier, stated without splitting: an address is a business address exactly
      when its lower-cased, stripped form is not a placeholder and is not at a free domain. */
  lemma BusinessEmailCharacterized(email: string)
    ensures IsBusinessEmail(email) <==>
      (NormalizeEmail(email) !in PLACEHOLDERS &&
       forall d :: d in FREE_DOMAINS ==> !AtDomain(NormalizeEmail(email), d))
  {
    var e := NormalizeEmail(email);
    var domain := AfterLastAt(e);
    FreeDomainsHaveNoAt();
    forall d | d in FREE_DOMAINS
      ensures domain == d <==> AtDomain(e, d)
    {
      AfterLastAtIsDomain(e, d);
    }
    assert IsBusinessEmail(email) == (e !in PLACEHOLDERS && domain !in FREE_DOMAINS);
  }

  lemma FreeDomainsHaveNoAt()
    ensures forall d :: d in FREE_DOMAINS ==> NoChar(d, '@')
  {
    forall i | 0 <= i < |FREE_DOMAINS| ensures NoChar(FREE_DOMAINS[i], '@') {
    }
  }

  /** The classifier ignores case, because it lower-cases first. */
  lemma BusinessEmailIgnoresCase(email: string)
    ensures IsBusinessEmail(Lower(email)) == IsBusinessEmail(email)
  {
    LowerIdempotent(email);
  }

  /** Normalizing before classifying (as `fetch_emails` does) changes nothing. */
  lemma NormalizeEmailIdempotent(email: string)
    ensures NormalizeEmail(NormalizeEmail(email)) == NormalizeEmail(email)
    ensures IsBusinessEmail(NormalizeEmail(email)) == IsBusinessEmail(email)
  {
    var s := Strip(Lower(email));
    LowerIdempotent(email);
    StripKeeps(Lower(email), c => !IsUpper(c));
    LowerOfNoUpper(s);
    StripIdempotent(Lower(email));
  }

  /** Three sample classifications: a free-mail address, */
  lemma FreeMailExample()
    ensures !IsBusinessEmail("user@gmail.com")
  {
    ClassifiedAt("user@gmail.com", "user", "gmail.com");
  }

  /** a business address, */
  lemma BusinessExample()
    ensures IsBusinessEmail("sales@acme.io")
  {
    var e, d := "sales@acme.io", "acme.io";
    assert e !in PLACEHOLDERS by {
      forall k | 0 <= k < |PLACEHOLDERS| ensures PLACEHOLDERS[k][0] != e[0] { }
    }
    assert d !in FREE_DOMAINS by {
      forall k | 0 <= k < |FREE_DOMAINS| ensures |FREE_DOMAINS[k]| != |d| || FREE_DOMAINS[k][1] != d[1] { }
    }
    ClassifiedAt(e, "sales", d);
  }

  /** and a placeholder written in upper case. */
  lemma PlaceholderExample()
    ensures !IsBusinessEmail("TEST@TEST.COM")
  {
    var shout := "TEST@TEST.COM";
    var quiet := "test@test.com";
    assert Lower(shout) == quiet by {
      forall i | 0 <= i < |shout| ensures Lower(shout)[i] == quiet[i] {
      }
    }
    NormalizeEmailOfNormal(quiet);
  }

  /** An address already in normal form, written out as `p@d`, is classified by `d` alone
      unless it is a placeholder. */
  lemma ClassifiedAt(e: string, p: string, d: string)
    requires NoUpper(e) && Trimmed(e) && e == p + "@" + d && NoChar(d, '@')
    ensures IsBusinessEmail(e) <==> e !in PLACEHOLDERS && d !in FREE_DOMAINS
  {
    NormalizeEmailOfNormal(e);
    AfterLastAtSuffix(p, d);
  }

  lemma NormalizeEmailOfNormal(e: string)
    requires NoUpper(e) && Trimmed(e)
    ensures NormalizeEmail(e) == e
  {
    LowerOfNoUpper(e);
    StripOfTrimmed(e);
  }

  /** What the selection loop of `fetch_emails` returns for the addresses found on a page,
      in page order: the first one that, lower-cased and stripped, is a business address
      (in that normalized form), or "" when none is. */
  function FirstBusinessEmail(matches: seq<string>): string {
    if matches == [] then ""
    else
      var e := NormalizeEmail(matches[0]);
      if IsBusinessEmail(e) then e else FirstBusinessEmail(matches[1..])
  }

  /** The first qualifying address is the one returned. */
  lemma {:induction false} FirstBusinessEmailFinds(matches: seq<string>, k: nat)
    requires k < |matches| && IsBusinessEmail(NormalizeEmail(matches[k]))
    requires forall j :: 0 <= j < k ==> !IsBusinessEmail(NormalizeEmail(matches[j]))
    ensures FirstBusinessEmail(matches) == NormalizeEmail(matches[k])
  {
    if k == 0 {
      assert FirstBusinessEmail(matches) == NormalizeEmail(matches[0]);
    } else {
      var rest := matches[1..];
      assert !IsBusinessEmail(NormalizeEmail(matches[0]));
      forall j | 0 <= j < k - 1 ensures !IsBusinessEmail(NormalizeEmail(rest[j])) {
        assert rest[j] == matches[j + 1];
      }
      assert rest[k - 1] == matches[k];
      FirstBusinessEmailFinds(rest, k - 1);
      assert FirstBusinessEmail(matches) == FirstBusinessEmail(rest);
    }
  }

  /** Whatever is returned is a business address, or "". */
  lemma {:induction false} FirstBusinessEmailQualifies(matches: seq<string>)
    ensures FirstBusinessEmail(matches) == "" || IsBusinessEmail(FirstBusinessEmail(matches))
  {
    if matches != [] && !IsBusinessEmail(NormalizeEmail(matches[0])) {
      FirstBusinessEmailQualifies(matches[1..]);
    }
  }

  /** With no qualifying address, the result is "". */
  lemma {:induction false} FirstBusinessEmailNone(matches: seq<string>)
    requires forall j :: 0 <= j < |matches| ==> !IsBusinessEmail(NormalizeEmail(matches[j]))
    ensures FirstBusinessEmail(matches) == ""
  {
    if matches != [] {
      FirstBusinessEmailNone(matches[1..]);
    }
  }

  /** The loop of `fetch_emails` over the addresses `re.findall` found: it skips addresses
      already seen on this page and returns the first business address. */
  method SelectEmail(matches: seq<string>) returns (email: string)
    ensures email == FirstBusinessEmail(matches)
  {
    var seen: set<string> := {};
    var i := 0;
    while i < |matches|
      invariant 0 <= i <= |matches|
      invariant FirstBusinessEmail(matches[i..]) == FirstBusinessEmail(matches)
      invariant forall e :: e in seen ==> !IsBusinessEmail(e)
    {
      assert matches[i..][1..] == matches[i + 1..];
      var e := NormalizeEmail(matches[i]);
      if e in seen {
        i := i + 1;
        continue;
      }
      seen := seen + {e};
      if IsBusinessEmail(e) {
        return e;
      }
      i := i + 1;
    }
    return "";
  }

  /** The email `fetch_emails` yields. `page` is what the GET produced: the addresses found in
      the body, in order, or `None` when the request or decoding failed. A URL that is empty
      or does not start with "http" gives "" whatever the page would have been. */
  function FetchedEmail(url: string, page: Option<seq<string>>): (r: string)
    ensures !StartsWith(url, "http") ==> r == ""
    ensures StartsWith(url, "http") && page == None ==> r == ""
  {
    if url == "" || !StartsWith(url, "http") then ""
    else match page
      case None => ""
      case Some(matches) => FirstBusinessEmail(matches)
  }

  /** `fetch_emails`, with the network reply given as `page`. */
  method FetchEmails(url: string, page: Option<seq<string>>) returns (email: string)
    ensures email == FetchedEmail(url, page)
  {
    if url == "" || !StartsWith(url, "http") {
      return "";
    }
    match page
    case None =>
      email := "";
    case Some(matches) =>
      email := SelectEmail(matches);
  }
}
