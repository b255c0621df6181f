# A verified model of the Google Maps scraper's core

`maps.py` scrapes business listings from a Google Maps search: it opens each listing,
reads its name, website, phone, address and reviews, drops duplicates, fetches a business
email from the website and appends one CSV row per listing until it has saved
`MAX_RESULTS` (1000) rows. This project models the part of it that is logic rather than
browser or network I/O, and proves what that logic guarantees.

- **Cleaning** (`cleaning.dfy`): `clean_csv_value`, the cell cleaner.
- **Emails** (`emails.dfy`): `is_business_email` with its two fixed lists, and the selection
  loop of `fetch_emails`. The loop is a method with a `seen` set. It is proved equal to a
  "first business address" function.
- **Urls** (`urls.dfy`): `clean_google_url` and `normalize_website`. It also holds the ASCII
  part of the library calls `clean_google_url` makes: `urlparse` as far as finding the query
  and refusing an unbalanced bracketed host, `parse_qs` (`&`-separated, blank values
  dropped) and `unquote` (percent-decoding, section 2.1 of RFC 3986).
- **Coords** (`coords.dfy`): `extract_lat_lng`, the leftmost match of
  `!3d([-+]?\d+\.\d+)!4d([-+]?\d+\.\d+)`, written out as a scanner.
- **Scraper** (`scraper.dfy`): the crawl loop of `run_scraper`.
  - The class `Crawler` holds the source's local state: the three seen-sets, the counter,
    the per-pass flag and the rows written. Its methods update that state in place, one
    listing, one pass and the whole run at a time.
  - Each method is proved equal to a pure function (`Step`, `Pass`, `Run`) of the old state.
  - The lemmas about those functions state what a listing can and cannot change. A save
    happens only for a new name, a new normalized website and a new contact key
    (`DecideSaves`). An invariant ties the sizes together (one row and one name per count,
    no more names than contact keys, no more keys than websites) and keeps the count within
    the cap.
- **Text** (`text.dfy`) and **Wrappers** (`wrappers.dfy`) hold the ASCII versions of
  `str.lower`, `strip`, `rstrip`, `startswith` and `in`, and an `Option` type.

A listing arrives as a record of what the page showed: optional name, link, phone, address
and reviews; the page URL once it is open (read for the coordinates) and the page URL read
again after the website is fetched (for the row's last column: the page can change its URL
while the fetch is awaited); the addresses found on its website (`None` when
the fetch fails); and the stage at which handling it raises, if it does (`Fault`). A raise
keeps whatever was recorded before it, as the source's `try`/`except` does.

The model follows the code, including these details:

- `rstrip("/")` removes every trailing slash, not just one.
- `normalize_website` is not idempotent. `https://http://a` normalizes to `http://a` and then
  to `a`, so no idempotence is claimed.
- A repeated name skips the listing before its website is looked at.
- Names are recorded only when a row is saved.
- The normalized website is recorded before the details are read and before the contact
  check. A contact duplicate, or a raise after that point, still uses up the website.

## Model

| member | source | states |
|---|---|---|
| Cleaning.CleanCsvValue | maps.py:17-26 | An empty value gives `""`. Otherwise the result has no line feed, carriage return or tab, and no whitespace at either end. It is a run of the value's characters, kept in place, with each break turned into a space, and everything cut off on either side is whitespace or a break. |
| Cleaning.SpaceBreaks | maps.py:23-25 | The three replacements turn each line feed, carriage return and tab into a space and keep every other character in place. |
| Cleaning.CleanCsvValueFixes | maps.py:20-25 | A value that is already trimmed and free of those three characters comes back unchanged. |
| Cleaning.CleanCsvValueIdempotent | maps.py:17-26 | Cleaning twice gives the same as cleaning once. |
| Emails.IsBusinessEmail | maps.py:29-37 | Defines the classifier: the lower-cased, stripped address is rejected when it is a placeholder or its text after the last `@` is a free-mail domain. Its meaning, stated without splitting, is `Emails.BusinessEmailCharacterized`. |
| Emails.AfterLastAt | maps.py:34 | `email.split("@")[-1]` has no `@` and follows an `@` unless it is the whole address. |
| Emails.AfterLastAtIsSuffix | maps.py:34 | `email.split("@")[-1]` is a suffix of the address. |
| Emails.AfterLastAtIsDomain | maps.py:34 | For a domain `d` with no `@`, the split-off domain equals `d` exactly when the address is `d` or ends in `@d`. |
| Emails.BusinessEmailCharacterized | maps.py:29-37 | An address is a business address iff its lower-cased, stripped form is not a placeholder and is not at any free-mail domain. |
| Emails.ClassifiedAt | maps.py:32-37 | An address already in normal form, `p@d` with no `@` in `d`, is a business address iff it is not a placeholder and `d` is not a free domain. |
| Emails.BusinessEmailIgnoresCase | maps.py:33 | Lower-casing the input first does not change the verdict. |
| Emails.NormalizeEmailIdempotent | maps.py:33 | Lower-casing and stripping twice is doing it once, and classifying the normalized form gives the same verdict as classifying the raw one. |
| Emails.FreeMailExample | maps.py:29-37 | `user@gmail.com` is not a business address. |
| Emails.BusinessExample | maps.py:29-37 | `sales@acme.io` is a business address. |
| Emails.PlaceholderExample | maps.py:30-36 | `TEST@TEST.COM` is rejected as a placeholder, whatever its case. |
| Emails.FirstBusinessEmailQualifies | maps.py:91-99 | Whatever the selection (scanning the matches in page order) returns is a business address, or `""`. |
| Emails.FirstBusinessEmailFinds | maps.py:92-98 | When match `k` is the first whose normalized form passes the classifier, the selection returns that normalized form. |
| Emails.FirstBusinessEmailNone | maps.py:92-99 | When no match passes, the selection returns `""`. |
| Emails.SelectEmail | maps.py:90-99 | The loop, which skips addresses already seen and returns early, returns exactly the first normalized match that passes the classifier, or `""`. |
| Emails.FetchedEmail | maps.py:83-101 | An empty URL, or one that does not start with `http`, gives `""` without a fetch; a failed fetch gives `""`. |
| Emails.FetchEmails | maps.py:83-101 | The method returns what `FetchedEmail` describes for the URL and the page. |
| Urls.Unquote | maps.py:56 | Percent-decoding never lengthens the text and leaves text without `%` unchanged; `Urls.UnquotePercentEncode` is its inverse property. |
| Urls.UrlParseFails | maps.py:53 | Defines when `urlparse` raises: the network location has `[` without `]` or the reverse. |
| Urls.Query | maps.py:53-54 | Defines `urlparse(url).query`: the text after the first `?`, up to any `#`. |
| Urls.QueryParam | maps.py:54-55 | Defines `parse_qs(query).get(key, [""])[0]`: the first non-blank, form-decoded value of `key`, or `""`. |
| Urls.CleanGoogleUrl | maps.py:40-63 | An empty URL gives `""`. Every other path is stated by the lemmas below. |
| Urls.CleanGoogleUrlNoTrailingSlash | maps.py:61-63 | For every input, the result never ends in `/`. |
| Urls.CleanGoogleUrlRedirect | maps.py:51-61 | A redirect that `urlparse` accepts and whose query has a non-empty `q` value, in any field, gives that value decoded a second time, minus its trailing `/`. |
| Urls.SplitOnPartsLackSep | maps.py:54 | No field of the query split on `&` contains `&`. |
| Urls.SplitOnJoin | maps.py:54 | Splitting the query on `&` and joining again gives back the query. |
| Urls.UnquotePercentEncode | maps.py:56 | Percent-decoding undoes percent-encoding of an ASCII string. |
| Urls.RedirectParses | maps.py:53 | `urlparse` does not fail on a `https://www.google.com/url?q=…` redirect whose value and tail are well formed. |
| Urls.RedirectQuery | maps.py:54-55 | The first `q` value of such a query is its value, decoded once. |
| Urls.CleanGoogleUrlPassThrough | maps.py:45-63 | A URL whose stripped form does not contain `google.com/url` comes back stripped, with every trailing `/` removed. |
| Urls.CleanGoogleUrlParseError | maps.py:51-61 | A redirect that `urlparse` refuses keeps the stripped URL, with trailing `/` removed. |
| Urls.CleanGoogleUrlMissingTarget | maps.py:51-63 | A redirect that `urlparse` accepts but that has no non-empty `q` value gives `""`. |
| Urls.CleanGoogleUrlUnwraps | maps.py:48-63 | A redirect `…/url?q=v&…` gives `v` decoded twice, once by `parse_qs` and once by `unquote`, minus its trailing `/`. |
| Urls.UnwrapsAlone | maps.py:48-63 | The same for a redirect that ends at its `q` value. |
| Urls.EncodedUnwraps | maps.py:54-61 | A target encoded once more than `parse_qs` decodes comes out as the target, minus its trailing `/`. |
| Urls.CleanGoogleUrlDoublyEncoded | maps.py:54-61 | A non-empty ASCII target that is percent-encoded twice inside a redirect comes out as the target, minus its trailing `/`. |
| Urls.NormalizeWebsite | maps.py:66-80 | An empty input gives `""`. The result never ends in `/`. |
| Urls.NormalizedHasNoUpper | maps.py:75-80 | The result has no upper-case letter. |
| Urls.NormalizeHttp | maps.py:75-77 | A URL starting with `http://` loses exactly those 7 characters; the rest is lower-cased, right-stripped and loses its trailing `/`. |
| Urls.NormalizeHttps | maps.py:75-79 | The same for `https://` and its 8 characters. |
| Urls.NormalizeWebsiteIgnoresScheme | maps.py:76-79 | `http://h` and `https://h` normalize alike. |
| Urls.NormalizeWebsitePlainHttp | maps.py:73-80 | `http://h` normalizes to `h` for a plain host `h`. |
| Urls.NormalizeWebsiteRemovesOneScheme | maps.py:76-79 | Only one scheme is removed: `https://http://h` normalizes to `http://h`. |
| Urls.NormalizeWebsiteNotIdempotent | maps.py:76-79 | Normalizing that result again changes it, so the function is not idempotent. |
| Urls.NormalizeWebsiteStable | maps.py:66-80 | A result that is trimmed and starts with no scheme is left alone by a second normalization. |
| Coords.MatchAt | maps.py:105 | Defines a match at one position: `!3d`, a greedy signed decimal, `!4d`, a greedy signed decimal. `Coords.MatchAtSound` and `Coords.MatchAtComplete` state its meaning. |
| Coords.FirstMatch | maps.py:105 | Defines the search from a position. A position it returns lies at or after the start; `Coords.FirstMatchMatches` and `Coords.FirstMatchLeftmost` state that it matches and is leftmost. |
| Coords.ExtractLatLng | maps.py:104-108 | Latitude and longitude are found together or not at all. |
| Coords.ExtractLatLngFound | maps.py:105-107 | Found values are signed decimals. `!3d<lat>!4d<lng>` occurs at a position before which the expression matches nowhere. |
| Coords.ExtractLatLngNeedsLongitude | maps.py:105-108 | A URL without `!4d` gives `(None, None)`, even with a latitude marker. |
| Coords.ExtractLatLngNeedsLatitude | maps.py:105-108 | A URL without `!3d` gives `(None, None)`. |
| Coords.ExtractLatLngComplete | maps.py:105-107 | A URL holding `!3d`, a signed decimal, `!4d` and a signed decimal anywhere gives both values. |
| Coords.MatchAtSound | maps.py:105 | A match at `i` is `!3d`, a signed decimal, `!4d` and a signed decimal, starting at `i`. |
| Coords.MatchAtComplete | maps.py:105 | Such text at `i` matches there, and the longitude takes in every digit that follows. |
| Coords.DecimalEndComplete | maps.py:105 | Any signed decimal is found by the greedy scan for `[-+]?\d+\.\d+`. |
| Coords.FirstMatchLeftmost | maps.py:105 | `re.search` finds the leftmost match: nothing matches before the position it returns. |
| Coords.FirstMatchNone | maps.py:105-108 | When the search finds nothing, nothing matches anywhere. |
| Scraper.See | maps.py:146-150 | Defines what the loop learns first: the name lookup raises, there is no name, or there is a name, with what opening the listing reveals. |
| Scraper.Look | maps.py:159-199 | Defines what opening a named listing reveals: the link cleaned by `CleanGoogleUrl` (a missing link read as `""`), its `NormalizeWebsite` form, the contact key and the row. |
| Scraper.LookCoordinatesAgree | maps.py:179-198 | The contact key and the saved row carry the same coordinates, both from `extract_lat_lng` of the URL read before the awaited fetch; the row's `maps_url` is the cleaned URL read again after the fetch, which may differ. |
| Scraper.Show | maps.py:183 | Defines how the f-string writes a coordinate: the value itself, or `"None"` when none was found. |
| Scraper.ContactKey | maps.py:183 | Defines the contact key: name, website, phone, address, latitude and longitude joined by vertical bars. |
| Scraper.KeyOf | maps.py:169-183 | Defines the key of a listing: a missing phone or address is written `"N/A"`, the coordinates come from `ExtractLatLng` of the page URL. |
| Scraper.RowOf | maps.py:169-199 | Defines the saved row: name, website, phone, address, reviews, email and page URL passed through `CleanCsvValue`, the coordinates as found in the URL read before the fetch, `maps_url` from the URL read after it; a missing phone or address gives `"N/A"`, missing reviews `"0"`. |
| Scraper.Step | maps.py:145-220 | Defines one listing: a raise at the name or a missing name changes nothing, otherwise `Decide`. Its properties are the lemmas below. |
| Scraper.Decide | maps.py:146-158 | Defines the name checks: a seen name changes nothing, a new one sets the pass flag before the click. |
| Scraper.Admit | maps.py:160-181 | Defines the website check: an empty or seen website is rejected, a new one is recorded before the details are read. |
| Scraper.Record | maps.py:183-216 | Defines the contact check and the save: the key is recorded, then the row, the name and the count. |
| Scraper.PassFrom | maps.py:144-216 | Defines the `for` loop: listings in order, breaking after a save that brings the count to 1000. |
| Scraper.Pass | maps.py:141-226 | Defines one pass: the flag is reset, then `PassFrom`. |
| Scraper.Run | maps.py:140-226 | Defines the `while` loop over the given passes, tested against the cap before each. |
| Scraper.StepSkipsName | maps.py:145-152 | A raise while reading the name, a missing name, or a name already saved leaves the whole state unchanged. |
| Scraper.DecideRejectsWebsite | maps.py:154-167 | A new name with an empty or already-seen website only sets the pass flag. |
| Scraper.DecideSaves | maps.py:146-216 | A row is saved iff nothing raises, the name is new, the website is non-empty, its normalized form is new and the contact key is new. A save adds the name, website and key to their sets, counts one more and appends the row. |
| Scraper.DecideWritesOnlyOnSave | maps.py:144-220 | Without a save, the rows, the counter and the names are unchanged. |
| Scraper.ContactDuplicateBurnsWebsite | maps.py:166-185 | A contact duplicate still records its normalized website. |
| Scraper.WebsiteRejectedRepeats | maps.py:151-167 | A listing rejected for its website leaves its name unrecorded, so when it is shown on the next pass it meets the same outcome. |
| Scraper.WebsiteRejectedStaysRejected | maps.py:151-167 | From any later state that has only grown and still lacks the name, the same listing is rejected for its website again, and only the pass flag is set. |
| Scraper.SavedNameIsSeen | maps.py:151-152 | A listing saved once is turned away by its name the next time. |
| Scraper.DecideFlags | maps.py:142-154 | After a listing the pass flag is set iff it was set before or the listing's name was read without a raise and was not yet saved. |
| Scraper.StepFlags | maps.py:144-154 | The same for a whole listing step: a listing without a name, or whose name lookup raises, leaves the flag alone. |
| Scraper.DecideGrows | maps.py:144-220 | The three sets, the rows and the counter only grow. |
| Scraper.StepGrows | maps.py:144-220 | The sets, rows and counter only grow. A save adds one to the counter; any other outcome leaves rows, counter and names as they were. |
| Scraper.DecidePreservesInv | maps.py:140-216 | Below the cap, one listing keeps the invariant: rows = counter = names, names ≤ contacts ≤ websites, counter ≤ 1000. |
| Scraper.AdmitPreservesInv | maps.py:160-216 | The website step keeps it: a recorded website is new. |
| Scraper.RecordPreservesInv | maps.py:183-212 | The contact step keeps it: a recorded key and a saved name are new. |
| Scraper.StepPreservesInv | maps.py:144-220 | The invariant survives any listing step. |
| Scraper.PassFromPreservesInv | maps.py:144-216 | A pass, which stops once the counter reaches the cap, keeps the invariant and only grows the state. |
| Scraper.PassFromGrows | maps.py:144-220 | A pass only grows the state. |
| Scraper.PassFromKeepsFlag | maps.py:142-154 | Once set, the pass flag stays set for the rest of the pass. |
| Scraper.UnseenNameBlocksScroll | maps.py:151-154 | A listing in the pass with a readable, unsaved name sets the flag, so the page does not scroll (the test at maps.py line 223). |
| Scraper.RunPreservesInv | maps.py:140-226 | The whole run keeps the invariant and only grows the state. |
| Scraper.RunStopsAtCap | maps.py:140 | Once the first `k` passes bring the counter to 1000, the later passes change nothing. |
| Scraper.RunBelowCapRunsAll | maps.py:140-142 | A run that ends below 1000 ran every given pass, one after another. |
| Scraper.PassBelowCapStepsAll | maps.py:144-216 | A pass that ends below 1000 handled every listing it was shown; it breaks early only at the cap. |
| Scraper.RunAppend | maps.py:140 | Running passes `a` and then passes `b` is running `a + b`. |
| Scraper.Crawler.constructor | maps.py:112-115 | Starts with empty sets, a zero counter and no rows, satisfying the invariant. |
| Scraper.Crawler.ProcessListing | maps.py:145-220 | Updates the fields and returns the outcome exactly as the `Step` function says. |
| Scraper.Crawler.AdmitListing | maps.py:160-216 | From the website check on, updates the fields as `Admit` says. |
| Scraper.Crawler.RecordContact | maps.py:183-212 | The contact check and the save update the fields as `Record` says. |
| Scraper.Crawler.RunPass | maps.py:141-226 | One pass updates the fields as `Pass` says and keeps the invariant. The page scrolls exactly when the flag stayed false. |
| Scraper.Crawler.Scrape | maps.py:140-226 | The loop over the given passes updates the fields as `Run` says and keeps the invariant. |

## Left out

- Browser control (launch, navigation, waits, clicks, scrolling, `browser.close()`): each listing is given as a record of what the page showed, and a pass as the list of listings shown.
- The HTTP GET and body decoding in `fetch_emails`: the addresses found in the body are an input (`None` when the request fails).
- `EMAIL_REGEX` and `re.findall`: the matched addresses are given in page order; the regular expression is not modelled.
- CSV writing with pandas (header bootstrap, byte-order mark, quoting, append mode): the output is the sequence of nine-field rows.
- `async`/`await` and the `print` calls: apart from the page URL, which is read on both sides of the awaited fetch and so is two inputs, nothing modelled changes across an `await`; `print` changes no modelled state (but see the log line after a save, below).
- Unicode behaviour of `lower()` and `strip()`: only ASCII letters are lower-cased, and the whitespace is the ASCII part of `str.isspace`.
- `urlparse`, `parse_qs` and `unquote` are modelled on ASCII only. The only parse failure modelled is the bracket check of the network location. Bytes of 0x80 and above decode to U+FFFD one by one, so multi-byte UTF-8 sequences are not reassembled.
- The outer `while` has no bound in the source: the model runs the passes it is given and also stops when they run out.
- The log line printed after each save (maps.py line 213) is taken never to raise. It sits inside the `try`, after the row, the name and the counter are recorded. A raise there, such as an encoding error on the console, would skip the cap test at line 215, and the counter could then pass 1000. The bound "count ≤ 1000" that `Scraper.RunPreservesInv` proves rests on this assumption.
- Python's `\d` in the coordinate pattern matches every Unicode decimal digit; the model accepts only the ASCII digits `0`-`9`.
- Exceptions are modelled as the stage at which a listing's handling raises (`Fault`). What was recorded before that stage stays recorded.
- `clean_csv_value` on a value that is not a string (`str(value)`, `None`): the model takes strings, and the only falsy one is `""`.
