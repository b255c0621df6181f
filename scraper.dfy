/** The crawl-and-dedup state machine of `run_scraper`: the per-listing step, the pass over the
    listings currently shown, and the outer loop that runs passes until enough rows are saved.
    The browser is abstracted away: each listing arrives as a record of what the page showed. */
module Scraper {
  import opened Wrappers
  import opened Cleaning
  import opened Emails
  import opened Urls
  import opened Coords

  const MAX_RESULTS: nat := 1000

  /** The point at which handling a listing raises, if it does. Whatever was recorded before
      that point stays recorded; the exception is caught and the pass moves on. */
  datatype Fault =
    | NoFault
    | AtName      // looking up or reading the name element
    | AtClick     // scrolling to it, clicking it, or looking up the website link
    | AtDetails   // reading the phone, address or reviews
    | AtSave      // appending the row to the CSV file
  // The log line printed after a save (maps.py line 213) is taken never to raise: a raise
  // there would skip the cap test that follows it.

  /** What the page showed for one listing. `None` is an element that is absent;
      `pageUrl` is the page's URL once the listing is open, read for the coordinates;
      `urlAfterFetch` is the page's URL read again for the row's last column, after the
      website has been fetched (the page may have changed its URL in between); `page` is the
      list of addresses the website's body yields, or `None` when fetching it fails. */
  datatype Listing = Listing(
    name: Option<string>,
    href: Option<string>,
    phone: Option<string>,
    address: Option<string>,
    reviews: Option<string>,
    pageUrl: string,
    urlAfterFetch: string,
    page: Option<seq<string>>,
    fault: Fault)

  /** One CSV row, its nine columns in file order. */
  datatype Row = Row(
    name: string,
    website: string,
    phone: string,
    address: string,
    reviews: string,
    latitude: Option<string>,
    longitude: Option<string>,
    email: string,
    mapsUrl: string)

  /** How the handling of one listing ended. */
  datatype Outcome =
    | NoName            // no name element
    | NameSeen          // the name was saved before
    | WebsiteRejected   // empty website, or its normalized form was seen before
    | ContactDuplicate  // the contact key was seen before
    | Raised(at: Fault) // an exception, caught by the pass
    | Saved

  /** The scraper's state: the three sets, the counter, the per-pass flag and the rows written. */
  datatype Crawl = Crawl(
    seenNames: set<string>,
    seenWebsites: set<string>,
    seenContacts: set<string>,
    resultsCount: nat,
    newBatchFound: bool,
    rows: seq<Row>)

  function Start(): Crawl {
    Crawl({}, {}, {}, 0, false, [])
  }

  /** How an f-string shows an optional value. */
  function Show(o: Option<string>): string {
    match o
    case Some(v) => v
    case None => "None"
  }

  /** `f"{name}|{website}|{phone}|{address}|{lat}|{lng}"`. */
  function ContactKey(name: string, website: string, phone: string, address: string,
                      lat: Option<string>, lng: Option<string>): string {
    name + "|" + website + "|" + phone + "|" + address + "|" + Show(lat) + "|" + Show(lng)
  }

  /** What opening a listing named `name` reveals, as the source derives it: the website
      (the link unwrapped and cleaned), its normalized form, the contact key and the row that
      would be saved. */
  datatype View = View(website: string, norm: string, key: string, row: Row)

  function Look(name: string, l: Listing): View {
    var website := CleanGoogleUrl(l.href.GetOr(""));
    View(website, NormalizeWebsite(website), KeyOf(name, website, l), RowOf(name, website, l))
  }

  function KeyOf(name: string, website: string, l: Listing): string {
    var (lat, lng) := ExtractLatLng(l.pageUrl);
    ContactKey(name, website, l.phone.GetOr("N/A"), l.address.GetOr("N/A"), lat, lng)
  }

  /** The row: every text column cleaned, the coordinates as found in the URL read before the
      website is fetched, the email as fetched, and the URL as read after the fetch. */
  function RowOf(name: string, website: string, l: Listing): Row {
    var (lat, lng) := ExtractLatLng(l.pageUrl);
    Row(CleanCsvValue(name), CleanCsvValue(website), CleanCsvValue(l.phone.GetOr("N/A")),
        CleanCsvValue(l.address.GetOr("N/A")), CleanCsvValue(l.reviews.GetOr("0")), lat, lng,
        CleanCsvValue(FetchedEmail(website, l.page)), CleanCsvValue(l.urlAfterFetch))
  }

  /** The contact key and the saved row carry the same coordinates, both found in the URL read
      before the fetch; the row's last column is the URL read after it. */
  lemma LookCoordinatesAgree(name: string, l: Listing)
    ensures var v := Look(name, l);
      v.key == ContactKey(name, v.website, l.phone.GetOr("N/A"), l.address.GetOr("N/A"),
                          v.row.latitude, v.row.longitude) &&
      v.row.latitude == ExtractLatLng(l.pageUrl).0 &&
      v.row.longitude == ExtractLatLng(l.pageUrl).1 &&
      v.row.mapsUrl == CleanCsvValue(l.urlAfterFetch)
  {
  }

  /** The checks made once a listing has a name, in the source's order (a raise while the name
      is read comes before all of them and changes nothing): the name, */
  function Decide(st: Crawl, fault: Fault, name: string, v: View): (Crawl, Outcome) {
    if fault == AtName then (st, Raised(AtName))
    else if name in st.seenNames then (st, NameSeen)
    else
      var flagged := st.(newBatchFound := true);
      if fault == AtClick then (flagged, Raised(AtClick))
      else Admit(flagged, fault, name, v)
  }

  /** the website, */
  function Admit(st: Crawl, fault: Fault, name: string, v: View): (Crawl, Outcome) {
    if v.norm in st.seenWebsites || v.website == "" then (st, WebsiteRejected)
    else
      var burned := st.(seenWebsites := st.seenWebsites + {v.norm});
      if fault == AtDetails then (burned, Raised(AtDetails))
      else Record(burned, fault, name, v.key, v.row)
  }

  /** and the contact key, after which the row is saved. */
  function Record(st: Crawl, fault: Fault, name: string, key: string, row: Row): (Crawl, Outcome) {
    if key in st.seenContacts then (st, ContactDuplicate)
    else
      var keyed := st.(seenContacts := st.seenContacts + {key});
      if fault == AtSave then (keyed, Raised(AtSave))
      else
        (keyed.(rows := st.rows + [row],
                seenNames := st.seenNames + {name},
                resultsCount := st.resultsCount + 1), Saved)
  }

  /** What the loop body learns from one listing, in the order it looks: the name lookup
      raises, there is no name, or there is a name, together with the point where handling
      the listing raises and what opening it reveals. */
  datatype Seen =
    | NameRaises
    | Nameless
    | Named(name: string, fault: Fault, view: View)

  function See(l: Listing): Seen {
    if l.fault == AtName then NameRaises
    else match l.name
      case None => Nameless
      case Some(name) => Named(name, l.fault, Look(name, l))
  }

  /** The listings of a pass as the loop body sees them, in order. */
  function SeeAll(ls: seq<Listing>): (ss: seq<Seen>)
    ensures |ss| == |ls|
    ensures forall i {:trigger ss[i]} :: 0 <= i < |ls| ==> ss[i] == See(ls[i])
  {
    if ls == [] then [] else [See(ls[0])] + SeeAll(ls[1..])
  }

  /** Every pass, seen. */
  function SeeEach(passes: seq<seq<Listing>>): (ps: seq<seq<Seen>>)
    ensures |ps| == |passes|
    ensures forall k {:trigger ps[k]} :: 0 <= k < |passes| ==> ps[k] == SeeAll(passes[k])
  {
    if passes == [] then [] else [SeeAll(passes[0])] + SeeEach(passes[1..])
  }

  /** The body of the `for listing in listings` loop, with its `try`/`except`. */
  function Step(st: Crawl, s: Seen): (Crawl, Outcome) {
    match s
    case NameRaises => (st, Raised(AtName))
    case Nameless => (st, NoName)
    case Named(name, fault, v) => Decide(st, fault, name, v)
  }

  /** The rest of a pass from listing `ss[0]` on: it stops early once a save brings the
      count to the maximum. */
  function PassFrom(st: Crawl, ss: seq<Seen>): Crawl
    decreases |ss|
  {
    if ss == [] then st
    else
      var (next, o) := Step(st, ss[0]);
      if o == Saved && next.resultsCount >= MAX_RESULTS then next
      else PassFrom(next, ss[1..])
  }

  /** One iteration of the `while` loop: the flag is reset and the listings shown are handled
      in order. The page scrolls afterwards exactly when the flag is still false. */
  function Pass(st: Crawl, ss: seq<Seen>): Crawl {
    PassFrom(st.(newBatchFound := false), ss)
  }

  /** The `while results_count < MAX_RESULTS` loop, given the listings each pass sees. The
      source's loop has no bound; here it also ends when the given passes run out. */
  function Run(st: Crawl, passes: seq<seq<Seen>>): Crawl
    decreases |passes|
  {
    if passes == [] || st.resultsCount >= MAX_RESULTS then st
    else Run(Pass(st, passes[0]), passes[1..])
  }

  /** What holds between listings: one row and one name per save, every save preceded by a
      fresh contact key, every contact key by a fresh website, and the cap respected. */
  predicate Inv(st: Crawl) {
    |st.rows| == st.resultsCount == |st.seenNames| &&
    |st.seenNames| <= |st.seenContacts| <= |st.seenWebsites| &&
    st.resultsCount <= MAX_RESULTS
  }

  /** The sets, the rows and the counter only grow. */
  predicate Grows(st: Crawl, st': Crawl) {
    st.seenNames <= st'.seenNames && st.seenWebsites <= st'.seenWebsites &&
    st.seenContacts <= st'.seenContacts && st.rows <= st'.rows &&
    st.resultsCount <= st'.resultsCount
  }

  // ---------- one listing ----------

  /** A raise while reading the name, a missing name, or a name already saved leaves
      every part of the state as it was. */
  lemma StepSkipsName(st: Crawl, l: Listing)
    requires l.fault == AtName || l.name.None? || l.name.value in st.seenNames
    ensures Step(st, See(l)).0 == st
    ensures var o := Step(st, See(l)).1; o == Raised(AtName) || o == NoName || o == NameSeen
  {
  }

  /** A new name whose website is empty or seen writes nothing and records nothing, yet marks
      the pass as having found something new. */
  lemma DecideRejectsWebsite(st: Crawl, fault: Fault, name: string, v: View)
    requires fault != AtName && fault != AtClick && name !in st.seenNames
    requires v.website == "" || v.norm in st.seenWebsites
    ensures Decide(st, fault, name, v) == (st.(newBatchFound := true), WebsiteRejected)
  {
  }

  /** A listing is saved exactly when it raises nowhere and its name, normalized website and
      contact key are all new and its website is not empty. A save appends the one row,
      counts it, and records the name, the normalized website and the key. */
  lemma DecideSaves(st: Crawl, fault: Fault, name: string, v: View)
    ensures Decide(st, fault, name, v).1 == Saved <==>
      fault == NoFault && name !in st.seenNames && v.website != "" &&
      v.norm !in st.seenWebsites && v.key !in st.seenContacts
    ensures Decide(st, fault, name, v).1 == Saved ==>
      Decide(st, fault, name, v).0 ==
        Crawl(st.seenNames + {name}, st.seenWebsites + {v.norm}, st.seenContacts + {v.key},
              st.resultsCount + 1, true, st.rows + [v.row])
  {
  }

  /** Every way of not saving leaves the rows, the counter and the names alone. */
  lemma DecideWritesOnlyOnSave(st: Crawl, fault: Fault, name: string, v: View)
    requires Decide(st, fault, name, v).1 != Saved
    ensures Decide(st, fault, name, v).0.rows == st.rows
    ensures Decide(st, fault, name, v).0.resultsCount == st.resultsCount
    ensures Decide(st, fault, name, v).0.seenNames == st.seenNames
  {
  }

  /** A listing rejected as a contact duplicate has still used up its website: the normalized
      website was new before the step and is recorded after it. */
  lemma ContactDuplicateBurnsWebsite(st: Crawl, fault: Fault, name: string, v: View)
    requires Decide(st, fault, name, v).1 == ContactDuplicate
    ensures v.norm !in st.seenWebsites && v.website != "" && v.key in st.seenContacts
    ensures Decide(st, fault, name, v).0 ==
      st.(newBatchFound := true, seenWebsites := st.seenWebsites + {v.norm})
  {
  }

  /** A rejected website leaves the name unrecorded, so the same listing is handled again,
      and marks the pass again, when it is shown on the next pass. */
  lemma WebsiteRejectedRepeats(st: Crawl, fault: Fault, name: string, v: View)
    requires Decide(st, fault, name, v).1 == WebsiteRejected
    ensures name !in Decide(st, fault, name, v).0.seenNames
    ensures Decide(Decide(st, fault, name, v).0.(newBatchFound := false), fault, name, v) ==
            Decide(st, fault, name, v)
  {
  }

  /** More generally, the rejection repeats from any later state that has only grown and
      still lacks the name: the websites seen can only have grown, so the same website check
      fails again, after the flag is set. */
  lemma WebsiteRejectedStaysRejected(st: Crawl, st': Crawl, fault: Fault, name: string, v: View)
    requires Decide(st, fault, name, v).1 == WebsiteRejected
    requires Grows(st, st') && name !in st'.seenNames
    ensures Decide(st', fault, name, v) == (st'.(newBatchFound := true), WebsiteRejected)
  {
  }

  /** A listing that has just been saved is turned away by its name when it comes again. */
  lemma SavedNameIsSeen(st: Crawl, fault: Fault, name: string, v: View)
    requires Decide(st, fault, name, v).1 == Saved
    ensures var st' := Decide(st, fault, name, v).0;
      Decide(st', fault, name, v) == (st', NameSeen)
  {
  }

  /** The flag is set exactly by the listings that get past the name check. */
  lemma DecideFlags(st: Crawl, fault: Fault, name: string, v: View)
    ensures Decide(st, fault, name, v).0.newBatchFound <==>
      st.newBatchFound || (fault != AtName && name !in st.seenNames)
  {
  }

  lemma StepFlags(st: Crawl, s: Seen)
    ensures Step(st, s).0.newBatchFound <==>
      st.newBatchFound || (s.Named? && s.fault != AtName && s.name !in st.seenNames)
  {
    if s.Named? {
      DecideFlags(st, s.fault, s.name, s.view);
    }
  }

  lemma DecideGrows(st: Crawl, fault: Fault, name: string, v: View)
    ensures Grows(st, Decide(st, fault, name, v).0)
  {
  }

  lemma StepGrows(st: Crawl, s: Seen)
    ensures Grows(st, Step(st, s).0)
    ensures Step(st, s).1 == Saved ==> Step(st, s).0.resultsCount == st.resultsCount + 1
    ensures Step(st, s).1 != Saved ==> Step(st, s).0.rows == st.rows
    ensures Step(st, s).1 != Saved ==> Step(st, s).0.resultsCount == st.resultsCount
    ensures Step(st, s).1 != Saved ==> Step(st, s).0.seenNames == st.seenNames
  {
    if s.Named? {
      DecideGrows(st, s.fault, s.name, s.view);
      DecideSaves(st, s.fault, s.name, s.view);
      if Decide(st, s.fault, s.name, s.view).1 != Saved {
        DecideWritesOnlyOnSave(st, s.fault, s.name, s.view);
      }
    }
  }

  /** Each step keeps the invariant, as long as the cap has not been reached before it. */
  lemma DecidePreservesInv(st: Crawl, fault: Fault, name: string, v: View)
    requires Inv(st) && st.resultsCount < MAX_RESULTS
    ensures Inv(Decide(st, fault, name, v).0)
  {
    if fault != AtName && name !in st.seenNames && fault != AtClick {
      AdmitPreservesInv(st.(newBatchFound := true), fault, name, v);
    }
  }

  /** A website that is recorded is new, so it adds one to the websites' count. */
  lemma AdmitPreservesInv(st: Crawl, fault: Fault, name: string, v: View)
    requires Inv(st) && st.resultsCount < MAX_RESULTS && name !in st.seenNames
    ensures Inv(Admit(st, fault, name, v).0)
  {
    if v.norm !in st.seenWebsites && v.website != "" {
      var burned := st.(seenWebsites := st.seenWebsites + {v.norm});
      assert |burned.seenWebsites| == |st.seenWebsites| + 1;
      if fault != AtDetails {
        RecordPreservesInv(burned, fault, name, v.key, v.row);
      }
    }
  }

  /** Past the website check there is one website more than contacts; a recorded contact
      key is new, and so is the name a save records. */
  lemma RecordPreservesInv(st: Crawl, fault: Fault, name: string, key: string, row: Row)
    requires |st.rows| == st.resultsCount == |st.seenNames| && st.resultsCount < MAX_RESULTS
    requires |st.seenNames| <= |st.seenContacts| < |st.seenWebsites|
    requires name !in st.seenNames
    ensures Inv(Record(st, fault, name, key, row).0)
  {
    if key !in st.seenContacts {
      assert |st.seenContacts + {key}| == |st.seenContacts| + 1;
      if fault != AtSave {
        assert |st.seenNames + {name}| == |st.seenNames| + 1;
      }
    }
  }

  lemma StepPreservesInv(st: Crawl, s: Seen)
    requires Inv(st) && st.resultsCount < MAX_RESULTS
    ensures Inv(Step(st, s).0)
  {
    if s.Named? {
      DecidePreservesInv(st, s.fault, s.name, s.view);
    }
  }

  // ---------- a pass and the run ----------

  lemma {:induction false} PassFromPreservesInv(st: Crawl, ss: seq<Seen>)
    requires Inv(st) && st.resultsCount < MAX_RESULTS
    ensures Inv(PassFrom(st, ss))
    ensures Grows(st, PassFrom(st, ss))
    decreases |ss|
  {
    if ss != [] {
      var (next, o) := Step(st, ss[0]);
      StepPreservesInv(st, ss[0]);
      StepGrows(st, ss[0]);
      if !(o == Saved && next.resultsCount >= MAX_RESULTS) {
        PassFromPreservesInv(next, ss[1..]);
      }
    }
  }

  /** The counter never passes MAX_RESULTS, and the sets, rows and counter only grow. */
  lemma {:induction false} RunPreservesInv(st: Crawl, passes: seq<seq<Seen>>)
    requires Inv(st)
    ensures Inv(Run(st, passes))
    ensures Grows(st, Run(st, passes))
    decreases |passes|
  {
    if passes != [] && st.resultsCount < MAX_RESULTS {
      var st' := Pass(st, passes[0]);
      PassFromPreservesInv(st.(newBatchFound := false), passes[0]);
      RunPreservesInv(st', passes[1..]);
    }
  }

  /** Running passes `a` and then passes `b` is running `a + b`. */
  lemma {:induction false} RunAppend(st: Crawl, a: seq<seq<Seen>>, b: seq<seq<Seen>>)
    ensures Run(st, a + b) == Run(Run(st, a), b)
    decreases |a|
  {
    if a == [] {
      assert a + b == b;
    } else if st.resultsCount < MAX_RESULTS {
      assert (a + b)[0] == a[0] && (a + b)[1..] == a[1..] + b;
      RunAppend(Pass(st, a[0]), a[1..], b);
    }
  }

  /** The `while` test stops the run: once the first `k` passes bring the counter to the cap,
      the passes after them change nothing. */
  lemma RunStopsAtCap(st: Crawl, passes: seq<seq<Seen>>, k: nat)
    requires k <= |passes| && Run(st, passes[..k]).resultsCount >= MAX_RESULTS
    ensures Run(st, passes) == Run(st, passes[..k])
  {
    assert passes == passes[..k] + passes[k..];
    RunAppend(st, passes[..k], passes[k..]);
    RunStops(Run(st, passes[..k]), passes[k..]);
  }

  /** The given passes one after another, with no `while` test between them. */
  function Passes(st: Crawl, passes: seq<seq<Seen>>): Crawl
    decreases |passes|
  {
    if passes == [] then st else Passes(Pass(st, passes[0]), passes[1..])
  }

  /** The listings of a pass one after another, with no `break` at the cap. */
  function Steps(st: Crawl, ss: seq<Seen>): Crawl
    decreases |ss|
  {
    if ss == [] then st else Steps(Step(st, ss[0]).0, ss[1..])
  }

  /** The run stops early only at the cap: a run that ends below it ran every given pass. */
  lemma {:induction false} RunBelowCapRunsAll(st: Crawl, passes: seq<seq<Seen>>)
    requires Run(st, passes).resultsCount < MAX_RESULTS
    ensures Run(st, passes) == Passes(st, passes)
    decreases |passes|
  {
    if passes != [] {
      assert st.resultsCount < MAX_RESULTS;
      RunBelowCapRunsAll(Pass(st, passes[0]), passes[1..]);
    }
  }

  /** A pass breaks early only at the cap: one that ends below it handled every listing. */
  lemma {:induction false} PassBelowCapStepsAll(st: Crawl, ss: seq<Seen>)
    requires PassFrom(st, ss).resultsCount < MAX_RESULTS
    ensures PassFrom(st, ss) == Steps(st, ss)
    decreases |ss|
  {
    if ss != [] {
      var (next, o) := Step(st, ss[0]);
      assert !(o == Saved && next.resultsCount >= MAX_RESULTS);
      PassBelowCapStepsAll(next, ss[1..]);
    }
  }

  /** Once the flag is set it stays set for the rest of the pass. */
  lemma {:induction false} PassFromKeepsFlag(st: Crawl, ss: seq<Seen>)
    requires st.newBatchFound
    ensures PassFrom(st, ss).newBatchFound
    decreases |ss|
  {
    if ss != [] {
      var (next, o) := Step(st, ss[0]);
      StepFlags(st, ss[0]);
      if !(o == Saved && next.resultsCount >= MAX_RESULTS) {
        PassFromKeepsFlag(next, ss[1..]);
      }
    }
  }

  /** A listing whose name is not yet saved and that does not raise while its name is read
      sets the flag, so the pass that shows it does not scroll, even when its website is
      rejected. */
  lemma {:induction false} UnseenNameBlocksScroll(st: Crawl, ss: seq<Seen>, k: nat)
    requires k < |ss| && ss[k].Named? && ss[k].fault != AtName && ss[k].name !in st.seenNames
    ensures PassFrom(st, ss).newBatchFound
    decreases k
  {
    var (next, o) := Step(st, ss[0]);
    StepFlags(st, ss[0]);
    if next.newBatchFound {
      if !(o == Saved && next.resultsCount >= MAX_RESULTS) {
        PassFromKeepsFlag(next, ss[1..]);
      }
    } else {
      StepGrows(st, ss[0]);
      assert k > 0;
      assert ss[1..][k - 1] == ss[k];
      UnseenNameBlocksScroll(next, ss[1..], k - 1);
    }
  }

  lemma {:induction false} PassFromGrows(st: Crawl, ss: seq<Seen>)
    ensures Grows(st, PassFrom(st, ss))
    decreases |ss|
  {
    if ss != [] {
      var (next, o) := Step(st, ss[0]);
      StepGrows(st, ss[0]);
      if !(o == Saved && next.resultsCount >= MAX_RESULTS) {
        PassFromGrows(next, ss[1..]);
      }
    }
  }

  /** A pass's first step, then the rest of the pass. */
  lemma PassFromAt(st: Crawl, ss: seq<Seen>, i: nat)
    requires i < |ss|
    ensures var (next, o) := Step(st, ss[i]);
      PassFrom(st, ss[i..]) ==
        if o == Saved && next.resultsCount >= MAX_RESULTS then next else PassFrom(next, ss[i + 1..])
  {
    assert ss[i..][0] == ss[i] && ss[i..][1..] == ss[i + 1..];
  }

  /** A run's first pass, then the rest of the run. */
  lemma RunAt(st: Crawl, passes: seq<seq<Seen>>, k: nat)
    requires k < |passes| && st.resultsCount < MAX_RESULTS
    ensures Run(st, passes[k..]) == Run(Pass(st, passes[k]), passes[k + 1..])
  {
    assert passes[k..][0] == passes[k] && passes[k..][1..] == passes[k + 1..];
  }

  lemma RunStops(st: Crawl, passes: seq<seq<Seen>>)
    requires passes == [] || st.resultsCount >= MAX_RESULTS
    ensures Run(st, passes) == st
  {
  }

  // ---------- the scraper's state, updated in place ----------

  /** The local variables of `run_scraper` that persist across listings and passes. */
  class Crawler {
    var seenNames: set<string>
    var seenWebsites: set<string>
    var seenContacts: set<string>
    var resultsCount: nat
    var newBatchFound: bool
    var rows: seq<Row>

    function State(): Crawl
      reads this
    {
      Crawl(seenNames, seenWebsites, seenContacts, resultsCount, newBatchFound, rows)
    }

    predicate Valid()
      reads this
    {
      Inv(State())
    }

    constructor ()
      ensures State() == Start() && Valid()
    {
      seenNames, seenWebsites, seenContacts := {}, {}, {};
      resultsCount, newBatchFound, rows := 0, false, [];
    }

    /** One iteration of the listing loop. */
    method ProcessListing(l: Listing) returns (o: Outcome)
      modifies this
      ensures (State(), o) == Step(old(State()), See(l))
    {
      if l.fault == AtName {
        return Raised(AtName);
      }
      if l.name.None? {
        return NoName;
      }
      var name := l.name.value;
      if name in seenNames {
        return NameSeen;
      }
      newBatchFound := true;
      if l.fault == AtClick {
        return Raised(AtClick);
      }
      var website := CleanGoogleUrl(l.href.GetOr(""));
      var norm := NormalizeWebsite(website);
      o := AdmitListing(name, l, website, norm);
    }

    /** From the website check on. */
    method AdmitListing(name: string, l: Listing, website: string, norm: string) returns (o: Outcome)
      modifies this
      ensures (State(), o) ==
        Admit(old(State()), l.fault, name, View(website, norm, KeyOf(name, website, l), RowOf(name, website, l)))
    {
      if norm in seenWebsites || website == "" {
        return WebsiteRejected;
      }
      seenWebsites := seenWebsites + {norm};
      if l.fault == AtDetails {
        return Raised(AtDetails);
      }
      var phone := l.phone.GetOr("N/A");
      var address := l.address.GetOr("N/A");
      var reviews := l.reviews.GetOr("0");
      var (lat, lng) := ExtractLatLng(l.pageUrl);
      var email := FetchEmails(website, l.page);
      var key := ContactKey(name, website, phone, address, lat, lng);
      var row := Row(CleanCsvValue(name), CleanCsvValue(website), CleanCsvValue(phone),
                     CleanCsvValue(address), CleanCsvValue(reviews), lat, lng,
                     CleanCsvValue(email), CleanCsvValue(l.urlAfterFetch));
      o := RecordContact(name, l.fault, key, row);
    }

    /** The duplicate-contact check and the save. */
    method RecordContact(name: string, fault: Fault, key: string, row: Row) returns (o: Outcome)
      modifies this
      ensures (State(), o) == Record(old(State()), fault, name, key, row)
    {
      if key in seenContacts {
        return ContactDuplicate;
      }
      seenContacts := seenContacts + {key};
      if fault == AtSave {
        return Raised(AtSave);
      }
      rows := rows + [row];
      seenNames := seenNames + {name};
      resultsCount := resultsCount + 1;
      return Saved;
    }

    /** One pass over the listings shown; `scroll` says whether the page is scrolled after it. */
    method RunPass(ls: seq<Listing>) returns (scroll: bool)
      requires Valid() && resultsCount < MAX_RESULTS
      modifies this
      ensures State() == Pass(old(State()), SeeAll(ls))
      ensures scroll == !newBatchFound
      ensures Valid()
    {
      ghost var ss := SeeAll(ls);
      newBatchFound := false;
      var i := 0;
      while i < |ls|
        invariant 0 <= i <= |ls|
        invariant PassFrom(State(), ss[i..]) == Pass(old(State()), ss)
        invariant Valid() && resultsCount < MAX_RESULTS
      {
        ghost var before := State();
        PassFromAt(before, ss, i);
        StepPreservesInv(before, ss[i]);
        StepGrows(before, ss[i]);
        var o := ProcessListing(ls[i]);
        if o == Saved && resultsCount >= MAX_RESULTS {
          break;
        }
        i := i + 1;
      }
      scroll := !newBatchFound;
    }

    /** The outer loop, over the listings each pass sees. */
    method Scrape(passes: seq<seq<Listing>>)
      requires Valid()
      modifies this
      ensures State() == Run(old(State()), SeeEach(passes))
      ensures Valid()
    {
      ghost var ps := SeeEach(passes);
      var k := 0;
      while k < |passes| && resultsCount < MAX_RESULTS
        invariant 0 <= k <= |passes|
        invariant Run(State(), ps[k..]) == Run(old(State()), ps)
        invariant Valid()
      {
        RunAt(State(), ps, k);
        var scroll := RunPass(passes[k]);
        k := k + 1;
      }
      RunStops(State(), ps[k..]);
    }
  }
}
