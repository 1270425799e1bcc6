# Pickleball scout: the tournament link scan, in Dafny

The scout robot (`run_scout` in `scout.py`) opens a fixed search page of
pickleballtournaments.com in a headless Chrome, waits, and then walks every
`<a>` element on the page. It keeps an anchor only when its `href` is present
and contains `tournament/detail`, and only when the anchor's stripped visible
text is longer than three characters. It drops an anchor whose `href` is
already among the collected links, so the first occurrence wins. For every
anchor it keeps, it builds a record:

- the name is the first line of the stripped text;
- the link is the `href`;
- the date is the fixed placeholder `"Check Link"`;
- the location is the fixed placeholder `"Local Search"`.

An anchor whose attributes cannot be read is skipped. A failure to load the
page or to list its anchors gives the empty list.

This project models that scan. The browser is replaced by what it observed:
`Scout.Page` is either `LoadFailed` or `Loaded(anchors)`. Each
`Scout.Anchor` is either `Read(href, text)` or `Unreadable`:

- `href` is an `Option<string>`, where `None` is Python's `None`;
- `Unreadable` means reading `href` or `.text` raised.

Files:

- `pystr.dfy` (`PyStr`): the Python `str` operations the loop uses.
  - `Strip` is `str.strip()`. The whitespace set is written out: every
    character for which `str.isspace()` holds.
  - `FirstLine` is `split('\n')[0]`.
  - `Contains` is the `in` substring test.
- `scout.dfy` (`Scout`): constants, data, the filters, and the scan.
  - The loop is split into two steps. `Candidate` maps each anchor to its
    record, or to nothing when a filter rejects it. `Collect` is the
    first-seen deduplication over the records found so far. `Scan` composes
    the two.
  - `ScanLoop` is the imperative `for` loop with its nested `if`s. It is
    proved equal to `Scan`.
  - `RunScout` adds the page-level failure.
- `collect_properties.dfy` (`CollectProperties`): `Collect` compared with a
  reference definition. The reference keeps candidate `i` when no earlier
  candidate has its link, so it looks only at the input.
- `scout_properties.dfy` (`ScoutProperties`): the same properties, stated
  over anchors.
- `scout_examples.dfy` (`ScoutExamples`): concrete pages and the records the scan yields for them.

Facts about `scout.py` that the model keeps:

- The only extraction strategy is the flat scan over every `<a>` element.
  No other extraction strategy, such as one that groups results by card,
  exists.
- No anchor is rejected for its text, such as "Log In". A login link is
  excluded only because its URL lacks `tournament/detail`.
- No placeholder record is ever built. Zero matches give `[]`
  (`ScoutProperties.RunScoutEmptyIff`).
- The driver is always installed through `ChromeDriverManager`. No driver
  already installed on the system is looked up.
- Two steps can raise to the caller, because no `except` covers them:
  - building the driver at scout.py:20, which is outside the `try`;
  - `driver.quit()` in the `finally` at scout.py:71.

  Neither step is modelled; see "Left out".

## Model

| member | source | states |
|---|---|---|
| PyStr.Strip | scout.py:42 | The stripped text is no longer than the input. It is empty, or it starts and ends with a non-whitespace character. |
| PyStr.StripIsSlice | scout.py:42 | `strip()` removes only whitespace, and only from the two ends. The result is a contiguous slice `s[i..j]`, and `s[..i]` and `s[j..]` are all whitespace. |
| PyStr.StripUnique | scout.py:42 | Take any cut of whitespace-only ends that leaves no whitespace at either end. That cut equals `Strip(s)`, so `Strip` is the unique such cut. This is the converse of `StripIsSlice`. |
| PyStr.StripIdempotent | scout.py:42 | Stripping stripped text changes nothing. |
| PyStr.FirstLine | scout.py:52 | The name is a prefix of the stripped text and contains no line feed. It stops at the end of the text or just before the first line feed. |
| PyStr.FirstLineUnique | scout.py:52 | Any prefix with those three properties is `FirstLine(s)`, so they define `split('\n')[0]` completely. |
| PyStr.Contains | scout.py:45 | The `in` substring test: `sub` matches at the start of `s` or occurs in `s[1..]`. `ContainsIff` gives its meaning. |
| PyStr.ContainsIff | scout.py:45 | `sub in s` holds exactly when `sub` occurs at some index of `s`. Both directions are proved. |
| Scout.HasHref | scout.py:45 | Python truthiness of `href`: `None` and `""` are both false. |
| Scout.IsDetailLink | scout.py:45 | The URL filter `href and "tournament/detail" in href`. |
| Scout.Qualifies | scout.py:40-47 | The anchor was read, passes the URL filter, and its stripped text is longer than 3 characters. |
| Scout.RecordOf | scout.py:52-58 | The record of an anchor that passes both filters is well formed. Its link contains `tournament/detail`. Its name is non-empty and has no line feed. Its date is `"Check Link"` and its location is `"Local Search"`. |
| Scout.Candidate | scout.py:40-58 | An anchor contributes a record only if it was read and has an `href`. That record's link is the `href`, and the record is well formed. |
| Scout.Step | scout.py:49-59 | One loop iteration only appends, and it appends at most one record. |
| Scout.Collect | scout.py:39-59 | The deduplicating loop produces at most one record per anchor. |
| Scout.AlreadyFound | scout.py:49 | The `any(...)` duplicate test is true exactly when `href` is among the links collected so far. |
| Scout.Scan | scout.py:39-61 | The scan of a loaded page returns at most one record per anchor. `ScoutProperties` states what those records are. |
| Scout.RunScout | scout.py:23-68 | A page that failed to load, or whose anchors could not be listed, gives `[]`. This is the outer `except`. A loaded page gives at most one record per anchor. |
| Scout.ScanSnoc | scout.py:39-59 | Scanning one more anchor is exactly one more loop iteration on the records found so far. |
| Scout.ScanLoop | scout.py:37-64 | The imperative loop returns exactly `Scan(anchors)`. It has the nested filters, the duplicate loop, and skips unreadable anchors. |
| CollectProperties.CollectMatchesReference | scout.py:49-59 | Two views of deduplication give the same result. One checks each link against the records collected so far. The other keeps each candidate whose link no earlier candidate had. The result is those first candidates, in order. |
| CollectProperties.CollectUnique | scout.py:49 | No two collected records share a link. |
| CollectProperties.CollectLinksIff | scout.py:45-59 | The collected links are exactly the links of the candidates. |
| CollectProperties.NoneIgnored | scout.py:60-61 | A missing candidate changes nothing that the others produce. |
| ScoutProperties.ScanInvariant | scout.py:45-58 | Every scan result has pairwise distinct links. Every record has a link containing the marker, a non-empty one-line name, and the two placeholders. |
| ScoutProperties.ScanSound | scout.py:45-54 | Every returned record is `RecordOf` some anchor that passes both filters and is the first such anchor with its link. |
| ScoutProperties.ScanLinksIff | scout.py:45-59 | A link is returned exactly when some anchor passing both filters carries it. This covers completeness and soundness. A missing `href` or a text of 3 characters or fewer never yields a link. |
| ScoutProperties.FirstOccurrenceWins | scout.py:49-52 | The record returned for a link is the one built from the first qualifying anchor with that link. Its name is that anchor's first stripped line. |
| ScoutProperties.ScanOrder | scout.py:39-54 | Records appear in the page order of the first anchors they come from. For any two positions k1 < k2 of the result, record k1 comes from a first qualifying anchor that lies earlier on the page than the one record k2 comes from. |
| ScoutProperties.ScanExtends | scout.py:39-59 | Later anchors never change or remove records already found. They only append. |
| ScoutProperties.NonQualifyingIgnored | scout.py:40-61 | Removing an anchor leaves the other anchors' records unchanged if that anchor is unreadable, has no `href`, lacks the marker, or has short text. |
| ScoutProperties.RunScoutInvariant | scout.py:63-68 | A failed page load returns `[]`. A loaded page returns at most one record per anchor, with distinct links, each well formed. |
| ScoutProperties.RunScoutEmptyIff | scout.py:63-64 | The run returns `[]` exactly when the page failed to load or no anchor passes both filters. There is no placeholder record. |
| ScoutExamples.DuplicateAndRejected | scout.py:45-59 | Take two anchors with the same detail link, followed by an anchor that fails a filter. The result is one record, named by the first anchor's text. |
| ScoutExamples.DuplicateAndLoginPage | scout.py:45-59 | A concrete page has `.../tournament/detail?id=1` "Spring Open", the same link "Spring Open (mirror)", and `.../login` "Log In". It yields exactly one record, "Spring Open". |
| ScoutExamples.ShortTextDropped | scout.py:42-47 | A detail link whose stripped text has 3 characters or fewer produces nothing, however much whitespace surrounds it. |
| ScoutExamples.MissingHrefDropped | scout.py:45 | An anchor with no `href` produces nothing. |

## Left out

- Chrome options and driver construction through `ChromeDriverManager`
  (scout.py:12-20) are left out. They are an external library and a network
  download. A failure there is raised outside the `try` and is not modelled.
- `driver.quit()` in the `finally` (scout.py:70-71) is left out. It is
  browser I/O. If it raises, the exception replaces the return value; that
  case is not modelled.
- Navigation to the fixed URL (kept as the constant `Scout.TargetUrl`) and
  the 8-second sleep are left out. They are browser I/O and timing.
- How Selenium computes an anchor's visible `.text` and its resolved `href`
  is left out. Both are inputs to the model.
- Which attribute read raised inside the per-anchor `try` is not modelled.
  Either read failing gives `Unreadable`. The rest of the loop body cannot
  raise on strings.
- The `print` logging and the `__main__` block are left out.
- `app.py` is left out: the Streamlit UI, the SQLite practice log and the
  charts. It only renders the scout's list.
