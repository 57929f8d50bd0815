# War Room video updater: a verified model

The updater keeps a JSON file of videos from the War Room channel on Rumble,
newest first. Each run does four things:

- It reads the link of the most recent stored video. A missing file is
  created empty, and a file in the old bare-list format is rewritten as
  `{"last_updated", "videos"}`.
- It walks the tiles of the channel's listing page, newest first, until it
  reaches the tile whose URL is that link. Each tile with a title and a link
  becomes an entry `{"title", "link", "thumbnail", "uploader"}`. The title is
  stripped of surrounding whitespace, the link is made absolute on
  `https://rumble.com`, and the uploader is `https://warroom.org`.
- It prepends the new entries to the stored list, dropping any whose link is
  already stored.
- A helper, `parse_rumble_date`, turns Rumble's relative dates
  ("3 hours ago") into instants.

The model has these modules:

- `Text` (text.dfy) covers the Python string operations the code relies on:
  `str.strip()` with Python's whitespace set, the substring `in` operator, and
  the leftmost run of digits that `re.search(r'(\d+)', …)` finds.
- `Videos` (videos.dfy) covers the scan over one page.
  - A tile is the attributes the scan reads from it: the image's `alt` and
    `src`, and the link's `href`, each possibly missing.
  - `Resolve` turns tiles into the values the loop body sees. This includes
    the code's carry-over of `title` and `thumbnail`: a tile without an image
    keeps the previous tile's title and thumbnail.
  - `Collect` and `FirstSeen` specify what the scan produces.
  - `ScrapePage` is the loop itself, with its `break`, proved against them.
- `Store` (store.dfy) covers loading the stored file and the merge that
  `append_data` writes.
- `Updater` (updater.dfy) covers one whole run, and proves that a second run
  over the same page leaves the file unchanged.
- `RumbleDates` (rumble_dates.dfy) covers `parse_rumble_date`.
  - Instants are integers counting microseconds, the resolution of Python's
    `datetime`. The current time is a parameter.
  - A month counts 30 days and a year 365, as in the code.

The scan's boundary is the full video URL of the most recent stored video.
New videos keep page order. When the boundary is not on the page, every
well-formed tile is taken as new, and nothing distinguishes that case.

## Model

| member | source | states |
|---|---|---|
| Videos.Resolve | warroom_video_updater.py:171-180 | one item per tile, in page order |
| Videos.PageItems | warroom_video_updater.py:170-180 | the scan starts with nothing in scope and sees one item per tile (see Videos.NoTitleBeforeFirstImage, Videos.ResolveOwnAttributes and Videos.ResolveCarriesOver) |
| Videos.ResolveOwnAttributes | warroom_video_updater.py:173-180 | on any page, each item has its own tile's href; a tile with an image gives its own alt as title and src as thumbnail, whatever the tiles before it hold |
| Videos.ResolveKeepsTitle | warroom_video_updater.py:173-176 | tiles without an image from the start of a run keep the title that was in scope before the run |
| Videos.NoTitleBeforeFirstImage | warroom_video_updater.py:173-204 | a tile before the first image on the page is skipped: its title is unbound, which raises and is caught |
| Videos.ResolveCarriesOver | warroom_video_updater.py:173-180 | a tile without an image gets the previous tile's title and thumbnail |
| Videos.Entries | warroom_video_updater.py:182-201 | never more entries than tiles |
| Videos.EntriesAppend | warroom_video_updater.py:171-201 | entries keep page order: the entries of two concatenated tile runs are the two runs' entries concatenated |
| Videos.EntriesRecorded | warroom_video_updater.py:183-201 | every entry has a title with no whitespace at either end, a link that is `https://rumble.com` followed by a non-empty href, and the War Room uploader |
| Videos.Collect | warroom_video_updater.py:182-201 | the new videos of a page (see Videos.CollectIsPrefixBeforeBoundary for what they are) |
| Videos.FirstSeen | warroom_video_updater.py:185-187 | no video is seen exactly when no tile has both a title and a link (see Videos.FirstSeenIsFirstEntry) |
| Videos.CollectIsPrefix | warroom_video_updater.py:182-201 | the new videos are a prefix of the page's entries |
| Videos.CollectAvoidsBoundary | warroom_video_updater.py:190-193 | no new video has the last known URL as its link |
| Videos.CollectStopsAtBoundary | warroom_video_updater.py:190-193 | when the scan stops before the last entry, the entry it stops at has the last known URL |
| Videos.CollectIsPrefixBeforeBoundary | warroom_video_updater.py:182-201 | the new videos are the longest prefix of the page's entries that does not contain the last known URL |
| Videos.CollectWithoutBoundary | warroom_video_updater.py:182-201 | when no entry on the page has the last known URL, every entry is new |
| Videos.CollectAll | warroom_video_updater.py:132 | with no stored video, every well-formed tile is new |
| Videos.CollectRecorded | warroom_video_updater.py:183-201 | every new video the scan collects has a stripped title, a `https://rumble.com` link and the War Room uploader |
| Videos.FirstSeenIsFirstEntry | warroom_video_updater.py:185-187 | the most recent video seen is the page's first entry: same URL, and the same title once stripped; it is missing exactly when the page has no entry |
| Videos.FirstSeenAtBoundary | warroom_video_updater.py:185-193 | when the most recent video seen is the last known one, nothing is new |
| Videos.ScrapePage | warroom_video_updater.py:170-206 | the loop's list of new videos is exactly the page's entries before the last known URL; its most recent video is the first well-formed tile; its count is the number of new videos |
| Text.TrimStart | warroom_video_updater.py:197 | drops exactly the leading whitespace |
| Text.TrimEnd | warroom_video_updater.py:197 | drops exactly the trailing whitespace |
| Text.Strip | warroom_video_updater.py:197 | never longer than the title (see Text.StripSpec and Text.StripIdempotent) |
| Text.StripSpec | warroom_video_updater.py:197 | the stripped title has no whitespace at either end and sits in the original with only whitespace around it |
| Text.StripIdempotent | warroom_video_updater.py:197 | stripping twice is stripping once |
| Text.Contains | warroom_video_updater.py:19-44 | a keyword longer than the text never occurs in it (see RumbleDates.MissingCharacter and RumbleDates.RenderedContainsKeyword) |
| Text.LeadingDigits | warroom_video_updater.py:20 | the greedy digit run at the start of a string: all digits, and followed by a non-digit or the end |
| Text.FirstNumber | warroom_video_updater.py:20 | the search finds no number exactly when the text holds no digit |
| Text.DecimalValueShow | warroom_video_updater.py:20 | converting a numeral back with `int()` gives its number |
| Text.FirstNumberOfRun | warroom_video_updater.py:20 | any run of digits after digit-free text and before a non-digit is found, and is read as `int()` reads it, leading zeros included ("05" gives 5) |
| Text.FirstNumberFinds | warroom_video_updater.py:20 | a numeral after digit-free text and before a non-digit is the number the search finds |
| Store.FirstLink | warroom_video_updater.py:78-82 | there is a most recent link exactly when the stored list is non-empty |
| Store.ExistingVideos | warroom_video_updater.py:89-97 | the stored list as the merge reads it, empty for a missing or unreadable file (see Store.AppendData and Store.LoadExisting) |
| Store.LoadExisting | warroom_video_updater.py:53-85 | yields the first stored link, or none for an empty, missing or unreadable file; creates a missing file and upgrades the old format to the current one; keeps the stored videos; leaves an unreadable file alone |
| Store.LoadExistingIdempotent | warroom_video_updater.py:64-76 | loading an upgraded file again changes nothing |
| Store.Links | warroom_video_updater.py:100 | the set of stored links (see Store.MergeLinks) |
| Store.UniqueNew | warroom_video_updater.py:99-103 | keeps exactly the batch's videos whose link is not stored, and no more of them than the batch has |
| Store.UniqueNewAppend | warroom_video_updater.py:102-103 | the filter preserves order: filtering two concatenated batches concatenates the filtered batches |
| Store.UniqueNewEmptyIff | warroom_video_updater.py:102-103 | nothing is kept exactly when every link of the batch is already stored |
| Store.UniqueNewKeepsUnknown | warroom_video_updater.py:102-103 | a batch with no stored link is kept whole, duplicates within the batch included |
| Store.UniqueNewHead | warroom_video_updater.py:102-103 | the first kept video is the batch's first video with an unstored link |
| Store.Merge | warroom_video_updater.py:111-112 | the existing list is left intact at the end, and every video in front of it has a link that was not stored before |
| Store.MergeLinks | warroom_video_updater.py:99-112 | after the merge the stored links are the old links plus the batch's links |
| Store.MergeIdempotent | warroom_video_updater.py:99-112 | merging the same batch a second time changes nothing |
| Store.AppendData | warroom_video_updater.py:87-122 | writes the current format, holding the merge of the batch onto what the file held, or onto nothing for a missing or unreadable file |
| Updater.Cycle | warroom_video_updater.py:130-213 | after a run the file holds the page's new videos that are not yet stored, in page order, in front of the old list; every video in front is a well-formed entry with a link that was not stored before, and every new video's link is stored afterwards; the file is afterwards in the current format (created if missing, upgraded if a bare list), except that an unreadable file is left as it is when nothing is new |
| Updater.MergeOfRecorded | warroom_video_updater.py:99-112 | merging recorded videos keeps the existing list at the end, puts only recorded videos with unstored links in front, and stores every link of the batch |
| Updater.ScrapeRumble | warroom_video_updater.py:130-213 | the run writes what `Cycle` describes, merging only when something is new, and reports the first well-formed tile as the most recent video |
| Updater.RescanFindsNothingNew | warroom_video_updater.py:182-193 | after the new videos are merged, a second scan of the same page finds none whose link is not stored |
| Updater.RerunIsNoOp | warroom_video_updater.py:130-213 | a second run over the same page leaves the file exactly as the first run left it |
| RumbleDates.Span | warroom_video_updater.py:19-48 | every unit has a positive length |
| RumbleDates.Midnight | warroom_video_updater.py:31 | midnight of the current day lies at or before now, less than a day earlier, on a day boundary |
| RumbleDates.Origin | warroom_video_updater.py:21-46 | hours and minutes count from now itself; longer units count from a day boundary less than a day before now |
| RumbleDates.MatchUnit | warroom_video_updater.py:19-49 | the unit picked has its keyword in the text; no unit is picked only when the text holds no keyword (see RumbleDates.MatchUnitIsFirst) |
| RumbleDates.ParseRumbleDate | warroom_video_updater.py:14-51 | text without a keyword gives now; the result is an error exactly when there is a keyword and no digit; a parsed instant is never after now (see RumbleDates.ParsedInstant and RumbleDates.ParseRendered) |
| RumbleDates.Back | warroom_video_updater.py:21-46 | the time subtracted is never negative |
| RumbleDates.MatchUnitIsFirst | warroom_video_updater.py:19-48 | the unit chosen is the first one, in the order hour, minute, day, week, month, year, whose keyword the text contains |
| RumbleDates.NoKeywordMeansNow | warroom_video_updater.py:50-51 | text containing no keyword denotes the current time |
| RumbleDates.KeywordWithoutNumberFails | warroom_video_updater.py:19-48 | text with a keyword and no digit is an error |
| RumbleDates.DaysBeforeMidnight | warroom_video_updater.py:31-46 | going back whole days from a midnight lands on a midnight |
| RumbleDates.ParsedInstant | warroom_video_updater.py:19-48 | a text with unit u and number n denotes n units before its starting point; that instant is never after now, and it falls on a midnight for days, weeks, months and years |
| RumbleDates.RenderedContainsKeyword | warroom_video_updater.py:19-48 | a date written as "N units ago" contains its unit's keyword |
| RumbleDates.RenderedUnit | warroom_video_updater.py:19-48 | reading "N units ago" picks that unit, even for units tried late, such as month |
| RumbleDates.RenderedNumber | warroom_video_updater.py:20 | reading "N units ago" finds the number N |
| RumbleDates.ParseRendered | warroom_video_updater.py:14-51 | reading "N units ago" gives the instant N units before now, or before today's midnight |

## Left out

- Browser automation (Playwright) is left out.
  - Navigation, waiting, scrolling and the CSS queries are not modelled.
  - A page is given as the sequence of its tiles' attributes.
  - Exceptions raised by the browser inside the loop are not modelled. Only
    the exception from an unbound `title` is modelled: it is a tile without a
    title, so it is skipped.
- File I/O and JSON are left out.
  - A file's state is modelled as missing, unreadable or parsed.
  - Encoding, indentation and the rewrite itself are not modelled.
- The `last_updated` timestamp is left out because it comes from the clock.
- All `print` output, including the debug listing in `append_data` and the
  "no new videos" report, is left out. The most recent video that the report
  uses is returned by `ScrapeRumble`.
- The model's document is either a bare list of video objects, each with a
  `link`, or an object whose `videos` is such a list. Other shapes are not
  modelled. This is what the code does with them:
  - A non-empty object without a `videos` key makes loading raise `KeyError`
    at line 80. The run stops before the scan.
  - An empty object, `null`, `0` or `""` loads as no link. The file is
    rewritten with that value under `videos`. The merge then raises
    `TypeError` at line 100 or 112, which is caught at line 221, so the file
    keeps that value.
  - A non-zero number, or a non-empty string, makes loading raise
    `TypeError` at line 80.
  - A first stored video without `link` makes loading raise `KeyError` at
    line 80.
  - Any stored video without `link` makes the merge raise `KeyError` at line
    100. It is caught at line 221.
- The failure path of `parse_rumble_date` is modelled by a different outcome.
  When the text has a keyword but no digit, the code raises `AttributeError`
  from `re.search(...).group`. The model returns `Err(NoNumber)` instead.
- RumbleDates.ParseRumbleDate: does not model `OverflowError`. Python's
  `datetime` raises it for dates before year 1. The model's instants are
  unbounded integers.
- Text.FirstNumber: recognises only the ASCII digits 0-9. In Python, `\d` and
  `int()` also accept other Unicode decimal digits.
- The scheduling comment (runs twice daily) is left out. The `URL` and
  `OUTPUT_FILE` constants are left out too, since they only name the page and
  the file.
