# School-closings monitor: decision logic

A Dafny model of the decision logic of `closings.py`, a daemon that polls two
TV-station closings pages (WKBN and WFMJ) and watches six schools. Each cycle
it does three things:

- **Classify.** Each candidate element of a rendered page is upper-cased. For
  every watched school, in registry order, its search terms are tried in
  order. A term that is mentioned and followed by `: CLOSED` appends the
  school name. Failing that, a term followed by `: 2-HOUR DELAY` appends
  `"<SCHOOL> (DELAY)"`. The first such term ends the school's search (the
  `break`). The entries are then de-duplicated into a set. Any failure while
  fetching or parsing yields an empty result.
- **Status token.** The two sources' results are unioned. The status file
  gets `CLOSED` when the union is non-empty and `NONE` otherwise. The `DELAY`
  branch is dead as written: it is reached only when the union is empty. Even
  without that, no entry could match it, because delay entries are spelled
  `"<SCHOOL> (DELAY)"` and never contain `2-HOUR DELAY`. The model keeps the
  code's branch chain and proves both facts. It does not substitute the
  CLOSED > DELAY > NONE precedence that the comments suggest.
- **Dedup.** `new = all - notified`. When `new` is non-empty it is announced
  and added to `notified`.

Modules:

- `Text` (text.dfy): Python's substring test `p in s` as an executable scan,
  proved equal to "occurs at some index". Also ASCII upper-casing.
- `Registry` (registry.dfy): `SCHOOLS_TO_MONITOR` as an ordered sequence.
  Python dicts iterate in insertion order.
- `Classify` (classify.dfy):
  - the alias loop `MatchTerms` and its declarative partner: the first
    "hitting" term decides (`Decides`, `Verdict`);
  - per-element tags (`ElementTags`) and per-page tags (`PageTags`);
  - `CheckWebsite` over a `Fetch` that is either the rendered element texts
    or a failure;
  - the loop-for-loop imperative form (`ScanSchool`, `ScanElement`,
    `CollectClosings`), proved equal to the functional one.
- `Status` (status.dfy): the token choice.
- `Dedup` (dedup.dfy): one dedup step, and a run of consecutive cycles.
- `Monitor` (monitor.dfy): one polling cycle, from the two sources' fetch
  outcomes and the notified set to the token, the announcements and the new
  notified set. The cycle takes the registry as a parameter. The program
  runs it with `Registry.Schools`, which `Registry.SchoolsValid` shows to
  meet the registry invariant that the cycle lemmas assume.

Two facts about the code that the model keeps:

- The token choice (closings.py:142-147) implements no CLOSED > DELAY > NONE
  precedence.
- When both fetches fail (closings.py:108-110), the cycle writes `NONE`. It
  keeps no earlier status.

## Model

| member | source | states |
|---|---|---|
| Registry.SchoolsValid | closings.py:19-26 | The watch-list has six schools with distinct upper-case names, and each school's first search term is its own name. |
| Text.ContainsIff | closings.py:91-101 | The substring test used for every match holds exactly when the pattern occurs at some index of the text. |
| Text.UpperIdempotent | closings.py:88 | Upper-casing an element text a second time changes nothing. |
| Classify.HitMentions | closings.py:91-101 | A closing or delay phrase in the text implies the term itself is in the text, so the mention guard never changes the outcome. |
| Classify.MatchTermsSpec | closings.py:90-105 | A school's alias loop yields nothing exactly when none of its terms is followed by either phrase. Otherwise the first such term decides: closed if its CLOSED phrase occurs, delayed if not. |
| Classify.TagsForIff | closings.py:89-105 | A tag is among an element's entries exactly when some registry school, under its own name, yields it through the alias loop. |
| Classify.TagsForOnePerSchool | closings.py:89-105 | Each entry of an element names a watched school, and no school contributes two entries to the same element. |
| Classify.MentionWithoutPhraseYieldsNothing | closings.py:91-105 | If no term of a school is followed by ": CLOSED" or ": 2-HOUR DELAY", the element yields no entry for that school, even when the school is mentioned. |
| Classify.FirstHitDecides | closings.py:90-105 | The first term with a phrase fixes the school's one entry in the element. Later terms cannot change it. |
| Classify.PhraseOrder | closings.py:93-105 | For the deciding term, CLOSED beats DELAY when both phrases occur. An earlier term's DELAY beats a later term's CLOSED. |
| Classify.ElementTagsIgnoreCase | closings.py:88 | Two element texts that agree after upper-casing yield the same entries. |
| Classify.ElementTagsOfUpper | closings.py:88-100 | Classifying the upper-cased text gives the same entries as classifying the original text. |
| Classify.PageTagsIff | closings.py:87-105 | A tag is among a page's entries exactly when some element of the page yields it. |
| Classify.RenderInjective | closings.py:95-102 | For registry schools, the plain-name and " (DELAY)" entry strings never collide, and distinct tags render differently. |
| Classify.CheckWebsiteSpec | closings.py:82-110 | A failed fetch or parse yields the empty set. Every returned entry is a school name or a name plus " (DELAY)". A tag's entry is returned exactly when some element yields that tag. |
| Classify.ScanSchool | closings.py:90-105 | The alias loop with its breaks appends exactly the one entry, or none, that the functional matcher yields. |
| Classify.ScanElement | closings.py:88-105 | The school loop over one element appends that element's entries in registry order. |
| Classify.CollectClosings | closings.py:84-107 | The full element loop builds exactly the rendered page entries, in page order. De-duplicating that list gives exactly the set that `CheckWebsite` returns for the rendered page. |
| Status.ChooseToken | closings.py:142-147 | The token is CLOSED exactly when the union is non-empty and NONE exactly when it is empty. It is never DELAY. |
| Status.WrittenToken | closings.py:142-147 | The literal written to the status file is "CLOSED" when the union is non-empty and "NONE" when it is empty; "DELAY" is never written. |
| Status.EntryNeverSpellsDelay | closings.py:102-144 | No entry the classifier can produce contains "2-HOUR DELAY". |
| Status.DelayTestNeverHolds | closings.py:137-144 | Over any two sources' results, the delay test is false for every element of the union. |
| Dedup.DedupStep | closings.py:152-159 | The announced set is the part of the current closings not yet notified. The notified set afterwards is the old one united with the current closings. |
| Dedup.DedupIdempotent | closings.py:152-159 | Repeating a step with the same closings announces nothing and leaves the notified set unchanged. |
| Dedup.RunAnnouncesOnce | closings.py:126-165 | Over consecutive cycles, every closing is announced at most once and never after the cycle that first detected it, even if it disappears and returns. The notified set ends as everything detected. |
| Monitor.CycleSpec | closings.py:134-159 | One cycle writes CLOSED exactly when either source reported something, otherwise NONE, and never DELAY. It announces exactly the reported entries not yet notified, all well-formed, and adds all reported entries to the notified set. |
| Monitor.OneSourceSuffices | closings.py:134-143 | A closing or delay found on one source makes the cycle write CLOSED, whatever the other source returned. |
| Monitor.BothSourcesFailing | closings.py:108-147 | When both fetches fail, the cycle still completes: it writes NONE, announces nothing and keeps the notified set. |
| Monitor.SourcesCommute | closings.py:137 | Swapping the two sources does not change the cycle's outcome. |
| Monitor.RepeatedCycleAnnouncesNothing | closings.py:152-159 | A second cycle that sees the same pages announces nothing and leaves the notified set unchanged. |

## Left out

- `setup_driver` (closings.py:28-66): launching and configuring headless Chrome is foreign I/O.
- `driver.get`, `WebDriverWait`, `page_source` and BeautifulSoup parsing (closings.py:71-82): the page is given as the sequence of candidate element texts. An element nested in another appears again with its own text, exactly as `find_all` lists it; the nesting itself is not modelled.
- Exceptions: every exception raised while fetching or parsing is collapsed into the single `Failed` outcome.
- Status-file path, opening and writing (closings.py:117, 140-149): only the chosen token is modelled. A failed write is only logged.
- `print`, `logging` and `datetime` (closings.py:113-114, 130-131, 155-162): output formatting only.
- The two infinite loops, `time.sleep`, the `continue` retries and `driver.quit` (closings.py:119-181): control flow around unreliable I/O. One cycle is `Monitor.Cycle`. Once the inner loop has started, `except Exception` (closings.py:167-170) catches every error and continues, and `check_website` (closings.py:108-110) turns a dead browser into `[]`. So the outer loop (closings.py:119-175) recreates the browser only when `setup_driver` fails before any cycle has run. The notified set (closings.py:126) is created once and never reset. A dead session is never recovered: from then on every cycle writes `NONE`. `Dedup.Run(cycles, {})` therefore models the whole life of the process.
- Text.UpperIdempotent: upper-casing covers only ASCII letters. Python's `str.upper()` also maps non-ASCII letters and can change a string's length (for example `ß` becomes `SS`).
- `check_website` returns `list(set(closings))` in an unspecified order. The model returns the set.
