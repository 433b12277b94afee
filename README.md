# RadioABF core, modelled in Dafny

RadioABF is the web site of a radio station. It is built with Astro and stores its content in a Directus CMS. This project models the site's core logic and proves properties of it:

- **API endpoints**: the contact form mailer (`/api/contact`), the DJ casting form (`/api/dj-casting`), the vote endpoint (`/api/vote`) and the now-playing proxy (`/api/nowplaying`).
- **Directus helpers**: the GET micro-cache, with its fresh window, its stale-while-revalidate window and its guard against a second background refresh of an entry inside its stale window, and the asset URL builder.
- **Generated documents**: the RSS feed and the news sitemap.
- **Dedications ticker**: the browser script that builds the ticker, decides when to reload it and validates a submission.
- **Weekly schedule**: the programme schedule helpers and the formatting of track titles.
- **Maintenance scripts**: the news import, export and cleaning scripts, the artist sync, the programme scrapers and the programme seeding.

Each source file is one Dafny module:

| module | source |
|---|---|
| `Common`, `Text`, `Escape` | shared value helpers: JavaScript truthiness and `String(x)`, trimming, splitting, case mapping, `replace`-chains, HTML and XML escaping |
| `Contact` | `src/pages/api/contact.ts` |
| `DjCasting` | `src/pages/api/dj-casting.ts` |
| `Directus` | `src/lib/directus.ts` |
| `Vote` | `src/pages/api/vote.ts` |
| `NowPlaying` | `src/pages/api/nowplaying.ts` |
| `Schedule` | `src/lib/programsSchedule.ts` |
| `TrackFormat` | `src/lib/trackFormat.ts` |
| `Feed` | `src/pages/rss.xml.ts` |
| `Sitemap` | `src/pages/sitemap.xml.ts` |
| `Dedications` | `public/scripts/dedications-global.js` |
| `NewsClean` | `public/scripts/clean-news.mjs` |
| `NewsExport` | `public/scripts/export-news.mjs` |
| `NewsImport` | `scripts/import-news-directus.mjs` |
| `ArtistSync` | `scripts/sync-artists.mjs` |
| `ScheduleScrape` | `public/scripts/import-programs-from-site.mjs` (page scraping) |
| `ProgramImport` | `scripts/seed-programs-from-static.mjs` and the import half of `public/scripts/import-programs-from-site.mjs` |
| `Slug` | `slugify` of the two programme scripts and `safeFilename` of `public/scripts/export-news.mjs` |

The model works on values. Network answers, environment variables, the clock and file contents are parameters of the functions that use them. Objects that the source updates in place are classes:

- the micro-cache map (`Directus.MicroCache`);
- the ticker's state (`Dedications.TickerState`).

Loops that build a list step by step are methods with loop invariants, and each is proved against a function that specifies it.

## Model

| member | source | states |
|---|---|---|
| `Contact.Subject` | src/pages/api/contact.ts:9 | The subject is never empty. It is the trimmed submitted subject when that is non-empty, else "Website contact". |
| `Contact.Post` | src/pages/api/contact.ts:3-63 | The handler's order of early returns: a body that is not JSON gives 500 "Email sending failed."; a missing name, email or message gives 400; an email without `@` gives 400 "Invalid email."; a missing API key gives 500; a refused mail gives 500 with details cut to 300 characters; otherwise 200 and exactly one mail is sent. |
| `Contact.StatusClasses` | src/pages/api/contact.ts:13-18 | The status is always 200, 400 or 500. It is 400 exactly when a required field is missing or the email has no `@`. Error details never exceed 300 characters. |
| `Contact.SentMailValid` | src/pages/api/contact.ts:20-38 | A sent mail has a non-empty reply-to name and email, the email contains `@`, the API key, recipient and sender are non-empty, and the subject starts with the fixed prefix. |
| `Contact.EscapedField` | src/pages/api/contact.ts:72-79 | `esc` output contains no raw `<`, `>`, `"` or `'`, and unescaping it gives back the input. |
| `Contact.SentHtmlSafe` | src/pages/api/contact.ts:39-50 | Every field inserted into the mail's HTML is inert and decodes back to the submitted trimmed value. |
| `Contact.NullBodyIsMissingFields` | src/pages/api/contact.ts:5-15 | A JSON `null` body reads like an empty object (optional chaining), so it gets 400 "Missing required fields.". |
| `DjCasting.ItemsUrl` | src/pages/api/dj-casting.ts:117 | The collection URL is the base with its trailing slashes removed, then `/items/` and the collection. The base part never ends with `/`. |
| `DjCasting.CountryCode` | src/pages/api/dj-casting.ts:105 | An empty field gives `null`. Otherwise the code is the first two characters of the upper-cased value, and exactly two when the value is that long. |
| `DjCasting.Message` | src/pages/api/dj-casting.ts:106 | An empty field gives `null`. Otherwise the message is a prefix of the value of at most 1200 characters, and the whole value when it fits. |
| `DjCasting.Post` | src/pages/api/dj-casting.ts:37-140 | The handler's order of early returns: missing configuration gives 500; invalid JSON gives 400; the honeypot gives a silent 200; then missing required fields, no social link and a malformed URL each give 400. Otherwise there is one write; a failed write gives 500 and a successful one 200. |
| `DjCasting.RejectionMessages` | src/pages/api/dj-casting.ts:67-103 | Each validation failure gets its own status and message, checked in the source's order. |
| `DjCasting.StoredSubmissionValid` | src/pages/api/dj-casting.ts:67-115 | A stored submission has a non-empty, trimmed name, email and mix link, at least one social link, and only URL-like links. |
| `DjCasting.CountryCodeUpper` | src/pages/api/dj-casting.ts:105 | A stored country code contains no lower-case ASCII letter. |
| `DjCasting.HoneypotNeverStores` | src/pages/api/dj-casting.ts:59-65 | A filled honeypot field never leads to a write. Once the configuration is present, the reply is a plain 200 `{ ok: true }`. |
| `Directus.RequestUrl` | src/lib/directus.ts:33 | The URL is the base followed by the path, with one `/` inserted exactly when the path does not start with one. |
| `Directus.GetIgnoresCase` | src/lib/directus.ts:38 | Upper-casing a method name gives "GET" exactly when lower-casing it gives "get". |
| `Directus.CacheableIff` | src/lib/directus.ts:37-39 | A request is cacheable exactly when it has no init, or has no body and its method is absent, empty or GET in any case. |
| `Directus.SortByName` | src/lib/directus.ts:57-59 | The sorted headers are a permutation of the given ones. |
| `Directus.SortByNameSorted` | src/lib/directus.ts:57-59 | Headers with distinct names come out strictly sorted by name. |
| `Directus.SortedUnique` | src/lib/directus.ts:57-59 | Two strictly sorted sequences holding the same headers are equal. |
| `Directus.ValuesOf` | src/lib/directus.ts:57 | The values given for a name are non-empty exactly when some header has that name, ignoring case. |
| `Directus.HeaderNames` | src/lib/directus.ts:57 | The lower-cased names occur once each, and they are exactly the names given, lower-cased. |
| `Directus.Combine` | src/lib/directus.ts:57 | The entries of `new Headers(...)` have distinct names, one per name given. |
| `Directus.InCombine` | src/lib/directus.ts:57 | An entry is a lower-cased name given at least once, with all its values joined by ", " in the order given, and every such name has its entry. |
| `Directus.CombineMergesValues` | src/lib/directus.ts:57 | Two values for one name merge into one entry under the lower-cased name, the first value first. |
| `Directus.HeaderKeyIgnoresOrder` | src/lib/directus.ts:55-61 | Headers that give every name, in any case, the same values in the same order produce the same header key, so they share a cache entry. |
| `Directus.ValuesOfLowerNames` | src/lib/directus.ts:57 | Lower-casing the names does not change the values given for any name. |
| `Directus.HeaderKeyIgnoresNameCase` | src/lib/directus.ts:55-61 | Writing the header names in lower case gives the same header key. |
| `Directus.CacheKey` | src/lib/directus.ts:63 | The cache key starts with `GET:`, the URL and `:`. |
| `Directus.FromFetch` | src/lib/directus.ts:43-51 | A direct fetch settles to the body exactly when the response is OK; otherwise it throws. |
| `Directus.Classify` | src/lib/directus.ts:65-71 | A hit is fresh exactly when `now < exp`, and stale exactly when `exp <= now < swr`. Anything else, including no hit, is a miss. |
| `Directus.UncacheableBypasses` | src/lib/directus.ts:41-52 | An uncacheable request goes straight to the server and leaves the cache unchanged. |
| `Directus.FreshHitNoFetch` | src/lib/directus.ts:67-68 | A fresh hit returns the stored value and does not depend on the server's answer. The cache is unchanged. |
| `Directus.StaleHitRevalidates` | src/lib/directus.ts:70-96 | A stale hit returns the stored value. It starts a refresh exactly when none is pending, and marks the entry pending. |
| `Directus.Lookups` | src/lib/directus.ts:26-111 | A run of lookups starts at most one refresh per lookup. |
| `Directus.PendingStepKeeps` | src/lib/directus.ts:70-72 | A lookup inside the stale window of an entry with a refresh pending starts nothing and leaves the cache unchanged. |
| `Directus.PendingBlocksRefresh` | src/lib/directus.ts:70-72 | While a refresh is pending, any run of lookups of that key before the entry's stale window ends starts no refresh and keeps the entry. |
| `Directus.AtMostOneRefresh` | src/lib/directus.ts:70-94 | A lookup that starts a refresh, followed by any run of lookups of that key before the entry's stale window ends, starts exactly one refresh in all. |
| `Directus.RefreshAgainAfterWindow` | src/lib/directus.ts:70-110 | The guard covers only the stale window. A lookup after it ends is a miss even with a refresh pending. It stores an OK answer with nothing pending, and the next stale lookup starts a second refresh. |
| `Directus.MissFetches` | src/lib/directus.ts:98-110 | A miss asks the server. An OK answer is stored with windows measured from `now`; an error is thrown and the cache is unchanged. |
| `Directus.RefreshSettles` | src/lib/directus.ts:73-93 | A successful refresh replaces the entry with windows measured from its completion time. A failed one keeps the stale value and clears `pending`. |
| `Directus.StepKeepsValid` | src/lib/directus.ts:26-111 | When ttl <= swr, every lookup keeps each entry's fresh window inside its stale window. |
| `Directus.CompleteKeepsValid` | src/lib/directus.ts:84-93 | A refresh's completion keeps each entry's fresh window inside its stale window. |
| `Directus.DefaultsKeepValid` | src/lib/directus.ts:23-24 | The defaults are 30 s fresh and 5 min stale, and lookups with the defaults keep the cache valid. |
| `Directus.MicroCache.constructor` | src/lib/directus.ts:21 | The cache starts empty. |
| `Directus.MicroCache.Get` | src/lib/directus.ts:26-111 | The settlement, the new map and whether a refresh was started are those of `Step`, and the map stays valid. |
| `Directus.MicroCache.RefreshCompletes` | src/lib/directus.ts:84-93 | The new map is `Complete` of the old one, and it stays valid. |
| `Directus.AssetParams` | src/lib/directus.ts:120-124 | There are at most four query parameters. |
| `Directus.AssetParamsNames` | src/lib/directus.ts:120-124 | The parameter names are exactly the enabled options, in the order width, height, fit, quality. |
| `Directus.AssetParamsOrdered` | src/lib/directus.ts:120-124 | Names come in increasing rank. A known option's name is present exactly when that option is enabled (a non-zero number, or any fit). No other names appear. |
| `Directus.DirectusAsset` | src/lib/directus.ts:117-118 | A missing or empty file id, or a missing base, gives the empty string. |
| `Directus.DirectusAssetShape` | src/lib/directus.ts:126-127 | The asset URL is `base/assets/id`, followed by `?` and the query only when there are parameters. |
| `Vote.NewTally` | src/pages/api/vote.ts:84-90 | The first row of a key opens a tally for that key with count 1. |
| `Vote.Find` | src/pages/api/vote.ts:82 | The lookup returns the first position holding the key, or nothing when no tally has it. |
| `Vote.AggregateVotes` | src/pages/api/vote.ts:74-91 | The `for` loop over the rows builds exactly `Aggregate(rows)`. |
| `Vote.CountVote` | src/pages/api/vote.ts:80-89 | One pass of the loop body turns the tallies into `Add(ts, r)`: a blank key is skipped, a key already present gains one vote, and a new key is appended with a count of 1. |
| `Vote.AggregateDescribes` | src/pages/api/vote.ts:79-91 | The tallies have distinct keys. For every non-empty key that was voted for, its tally counts exactly the rows carrying that key, and its artist and title come from the first such row. |
| `Vote.AddKeepsDistinct` | src/pages/api/vote.ts:82-90 | Adding a row never creates a second tally for a key. |
| `Vote.AddSame` | src/pages/api/vote.ts:83 | A row with a known key increments that key's tally and keeps the first row's artist and title. |
| `Vote.AddOther` | src/pages/api/vote.ts:82-90 | A row never changes the tally of another key. |
| `Vote.FirstRowCount` | src/pages/api/vote.ts:79-91 | A key has a first row exactly when some row carries it. |
| `Vote.AggregateTotal` | src/pages/api/vote.ts:79-91 | The counts add up to the number of rows with a non-empty key: blank keys are skipped, no vote is lost. |
| `Vote.SortByCountPermutes` | src/pages/api/vote.ts:93 | Sorting `top` reorders the tallies without adding or dropping any. |
| `Vote.SortByCountOrdered` | src/pages/api/vote.ts:93 | `top` is ordered by decreasing count. |
| `Vote.SortByCountStable` | src/pages/api/vote.ts:93 | Tallies with equal counts keep their first-vote order, as the stable `Array.prototype.sort` does. |
| `Vote.InsertByCountOrdered` | src/pages/api/vote.ts:93 | Inserting into a list sorted by decreasing count keeps it sorted. |
| `Vote.InsertByCountWithCount` | src/pages/api/vote.ts:93 | An inserted tally goes after the tallies with the same count. |
| `Vote.ServerError` | src/pages/api/vote.ts:96-97 | The catch branch answers 500 with a non-empty message. |
| `Vote.Get` | src/pages/api/vote.ts:50-99 | A blank week gives 400 "Missing week". Missing configuration gives 500 with the `assertEnv` message. Otherwise one query for the week is made: an OK answer gives 200 with the week and the sorted aggregate of the rows (none when `data` is not an array); a failed one gives its status and "Directus GET failed: " plus the text. |
| `Vote.Post` | src/pages/api/vote.ts:103-135 | A blank week gives 400 "Missing week", then a blank track key gives 400 "Missing track_key". Otherwise exactly the trimmed week, key, artist and title are written: success gives 200, a refused write gives its status and text, an exception gives 500. |
| `NowPlaying.SplitTrackWithoutSeparator` | src/pages/api/nowplaying.ts:12-17 | Without `" - "` the artist is the trimmed entry and the title is empty. |
| `NowPlaying.SplitTrackAtFirstSeparator` | src/pages/api/nowplaying.ts:12-17 | The entry is split at the first `" - "`: the artist is the trimmed text before it, the title the trimmed text after it. |
| `NowPlaying.SplitTrackKeepsLaterSeparators` | src/pages/api/nowplaying.ts:13-15 | Later separators stay in the title: `"A - B - C"` splits into `A` and `B - C`. |
| `NowPlaying.FirstSeparatorAfterArtist` | src/pages/api/nowplaying.ts:13 | For a trimmed artist with no `" - "` that does not end in `" -"`, the first separator of `artist - rest` is right after the artist. |
| `NowPlaying.SplitTrackRoundTrip` | src/pages/api/nowplaying.ts:12-17 | Splitting `artist - title` gives back the artist and title, for trimmed values and an artist without a separator that does not end in `" -"`. |
| `NowPlaying.RemoveQuotes` | src/pages/api/nowplaying.ts:23 | The result contains none of the quote characters `“ ” " '`. |
| `NowPlaying.NormKey` | src/pages/api/nowplaying.ts:19-25 | The key contains no quote characters and has no leading or trailing whitespace. |
| `NowPlaying.CanonicalFormsAgree` | src/pages/api/nowplaying.ts:21-22 | Texts that differ only in letter case and whitespace-run length are equal once lower-cased and collapsed. |
| `NowPlaying.NormKeyIgnoresCaseAndRuns` | src/pages/api/nowplaying.ts:19-25 | Inputs that differ only in letter case and whitespace-run length give the same key. |
| `NowPlaying.NormTextOfQuoteFree` | src/pages/api/nowplaying.ts:20-24 | On quote-free text the normalisation leaves no two whitespace characters in a row. |
| `NowPlaying.NormKeyKeepsDoubleSpace` | src/pages/api/nowplaying.ts:22-23 | Quotes are removed after the whitespace is collapsed, so removing a quote that stood between two spaces leaves a double space in the key. |
| `NowPlaying.NormKeyNotIdempotent` | src/pages/api/nowplaying.ts:19-25 | Normalising such a key again changes it: `normKey` is not idempotent. |
| `NowPlaying.ExtractNowPlayingEmpty` | src/pages/api/nowplaying.ts:29-39 | With no source, or a selected source where title, `yp_currently_playing` and artist-with-title are all falsy, the text is empty. |
| `NowPlaying.ExtractNowPlayingTemplate` | src/pages/api/nowplaying.ts:32-38 | For an array the first source is read, and whenever any field is truthy the text is the trimmed `${artist} - ${title}`. |
| `NowPlaying.ExtractNowPlayingTitleOnly` | src/pages/api/nowplaying.ts:35-38 | A title-only source yields `"undefined - <title>"`, because `?:` binds looser than `\|\|`. |
| `NowPlaying.ExtractNowPlayingIgnoresYp` | src/pages/api/nowplaying.ts:35-38 | A source with only `yp_currently_playing` yields `"undefined - undefined"`. |
| `NowPlaying.Limit` | src/pages/api/nowplaying.ts:51 | The limit is `max(1, min(30, n))` for a number `n`, and 12 when the parameter is absent or empty. |
| `NowPlaying.Now` | src/pages/api/nowplaying.ts:67-68 | `now` is null exactly when the text is empty. Otherwise it carries the text, the clock reading, the split artist and title, and the key computed from them in that order. |
| `NowPlaying.Get` | src/pages/api/nowplaying.ts:42-88 | A missing status URL gives 500. A thrown fetch gives 500 with its message or "fetch failed". A non-2xx upstream gives 502 "Upstream HTTP <status>". Otherwise the answer is ok with `now` from the extracted text. The history is always empty. |
| `Schedule.DayAt` | src/lib/programsSchedule.ts:25 | The position in `DAY_KEYS` identifies the day: each index below 7 names the day at that index. |
| `Schedule.DayAtIndex` | src/lib/programsSchedule.ts:25 | Every day sits at its own index. |
| `Schedule.DayKey` | src/lib/programsSchedule.ts:25 | Each key is three lower-case letters. |
| `Schedule.ParseDay` | src/lib/programsSchedule.ts:33 | A recognised text is exactly the key of the day it names. |
| `Schedule.ParseDayKey` | src/lib/programsSchedule.ts:33 | Every day's key is recognised as that day. |
| `Schedule.ParseDayFoldedIsLower` | src/lib/programsSchedule.ts:32-33 | Recognising a day with case folding is the same as recognising the lower-cased text. |
| `Schedule.MatchDayIsTrimLower` | src/lib/programsSchedule.ts:32-33 | The character-level day matcher agrees with lower-casing, trimming and looking the text up in `DAY_KEYS`. |
| `Schedule.NormalizeDayIsTrimLower` | src/lib/programsSchedule.ts:27-34 | `normalizeDay` recognises `safeStr(v)` lower-cased and trimmed, and the key of the day it returns is that text. |
| `Schedule.NormalizeDayOfKey` | src/lib/programsSchedule.ts:31-34 | A day key in capitals, padded with whitespace, is still recognised as its day. |
| `Schedule.NormalizeDayKey` | src/lib/programsSchedule.ts:31-34 | A day key is recognised as its day. |
| `Schedule.ClockText` | src/lib/programsSchedule.ts:39-42 | The result is empty exactly when the text is. `HH:MM` or `HH:MM:SS` is cut to `HH:MM`; anything else is kept. |
| `Schedule.NormalizeTimeIdempotent` | src/lib/programsSchedule.ts:36-43 | Normalising a normalised time changes nothing. |
| `Schedule.ClockTextTrimmed` | src/lib/programsSchedule.ts:38-42 | A trimmed time stays trimmed. |
| `Schedule.ClockTextIdempotent` | src/lib/programsSchedule.ts:40-42 | Cutting the seconds twice is the same as once. |
| `Schedule.EntryOf` | src/lib/programsSchedule.ts:52-62 | The time and title are never empty. The time is the normalised start time, else "00:00". A row without a program gets "Untitled program" with no image or description. |
| `Schedule.Labels` | src/lib/programsSchedule.ts:48-62 | Each row is labelled with its normalised day and its entry, in order. |
| `Schedule.GroupAll` | src/lib/programsSchedule.ts:46 | There are exactly seven lists, one per `DAY_KEYS` entry in order. |
| `Schedule.GroupAppend` | src/lib/programsSchedule.ts:48-63 | Grouping distributes over concatenation of the input. |
| `Schedule.ScheduleAppend` | src/lib/programsSchedule.ts:48-63 | Each day's list for concatenated rows is the first rows' list followed by the second rows' list: input order is kept within a day. |
| `Schedule.ScheduleSnoc` | src/lib/programsSchedule.ts:49-62 | One more row extends exactly its own day's list, by its entry, and only when its day is recognised. |
| `Schedule.GroupCount` | src/lib/programsSchedule.ts:48-63 | The lists together hold exactly the labelled rows whose day is recognised. |
| `Schedule.PushCount` | src/lib/programsSchedule.ts:62 | One push adds one entry when the day is recognised and none otherwise. |
| `Schedule.ScheduleCount` | src/lib/programsSchedule.ts:48-63 | Every row with a recognised day appears exactly once: the total equals their number and never exceeds the number of rows. |
| `Schedule.GroupAllSnoc` | src/lib/programsSchedule.ts:48-63 | The grid after one more row is the previous grid with that row pushed. |
| `Schedule.BuildSchedule` | src/lib/programsSchedule.ts:45-66 | The loop over the rows builds exactly `ScheduleOf(base, rows)`. |
| `TrackFormat.FindClose` | src/lib/trackFormat.ts:5 | `[^)\]]*[\)\]]` finds the first closing bracket at or after a position, or reports that none follows. |
| `TrackFormat.SuffixMatchAt` | src/lib/trackFormat.ts:5 | A match of the suffix pattern at a position is non-empty and ends inside the text. |
| `TrackFormat.CollapseLongRuns` | src/lib/trackFormat.ts:7 | `/\s{2,}/g -> " "` keeps emptiness and whether the text starts with whitespace. |
| `TrackFormat.CollapseLongRunsNoDoubleSpace` | src/lib/trackFormat.ts:7 | After the collapse no two whitespace characters are adjacent. |
| `TrackFormat.CollapseLongRunsFixed` | src/lib/trackFormat.ts:7 | Text without adjacent whitespace is left unchanged. |
| `TrackFormat.StripTitleSuffixes` | src/lib/trackFormat.ts:1-8 | Blank input gives "". The result is always trimmed and has no adjacent whitespace. |
| `TrackFormat.StripTitleSuffixesBlank` | src/lib/trackFormat.ts:2-3 | Whitespace-only input gives "". |
| `TrackFormat.ReplaceSuffixesCopies` | src/lib/trackFormat.ts:6 | Text without a match is copied unchanged by the global replace. |
| `TrackFormat.ReplaceTrailingGroup` | src/lib/trackFormat.ts:5-6 | A matching group at the end of a plain title is replaced by one space. |
| `TrackFormat.StripTrailingGroup` | src/lib/trackFormat.ts:1-8 | A trailing matching group is removed entirely and the plain title comes back. |
| `TrackFormat.ExtendedMixMatches` | src/lib/trackFormat.ts:5 | `" (Extended Mix)"` after a title is one match, spanning exactly those characters. |
| `TrackFormat.StripExtendedMix` | src/lib/trackFormat.ts:1-8 | `stripTitleSuffixes("<title> (Extended Mix)")` is the title. |
| `TrackFormat.ReplaceSuffixesNoOpen` | src/lib/trackFormat.ts:5-6 | Text without an opening bracket is never rewritten. |
| `TrackFormat.NoGroupHeadAtF` | src/lib/trackFormat.ts:5 | No qualifier or keyword starts with `f`, so a group starting `(f` never matches. |
| `TrackFormat.NoMatchBeforeF` | src/lib/trackFormat.ts:5 | The pattern cannot match at `" (f"` or at the bracket after the space. |
| `TrackFormat.ReplaceSuffixesKeepsF` | src/lib/trackFormat.ts:5-6 | A group opening with `(f` after a plain title is copied unchanged. |
| `TrackFormat.StripKeepsFeat` | src/lib/trackFormat.ts:1-8 | A trailing `(feat. X)` group is kept: it is not a mix or edit suffix. |
| `TrackFormat.Chunks` | src/lib/trackFormat.ts:18 | `split(/(\s+)/)` gives non-empty chunks, and at least one for non-empty text. |
| `TrackFormat.ChunksJoin` | src/lib/trackFormat.ts:18 | The chunks, whitespace runs included, join back to the text. |
| `TrackFormat.Cleaned` | src/lib/trackFormat.ts:28 | Removing the characters outside letters, digits and apostrophes never lengthens a word, and leaves a word that has none unchanged. |
| `TrackFormat.TitleWords` | src/lib/trackFormat.ts:26-37 | A chunk yields one rebuilt part per hyphen-separated part. |
| `TrackFormat.TitleChunks` | src/lib/trackFormat.ts:19-39 | There is one output chunk per input chunk. |
| `TrackFormat.TitleCaseEN` | src/lib/trackFormat.ts:11-12 | Blank input gives the em dash. |
| `TrackFormat.TitleCaseChangesOnlyCase` | src/lib/trackFormat.ts:10-41 | The result differs from the trimmed input only in the case of ASCII letters. Every other character stays where it was. |
| `TrackFormat.TitleChunkSameUpToCase` | src/lib/trackFormat.ts:20-38 | Each rebuilt chunk equals its chunk up to letter case. |
| `TrackFormat.TitleWordSameUpToCase` | src/lib/trackFormat.ts:27-36 | Each rebuilt hyphen part equals its part up to letter case. |
| `TrackFormat.TitleCaseKeepsAcronym` | src/lib/trackFormat.ts:24 | An all-upper-case chunk of at most six characters with a capital letter is kept as it is. |
| `TrackFormat.TitleCaseMinorWord` | src/lib/trackFormat.ts:28-33 | A minor word that is neither the first nor the last chunk is written in lower case. |
| `TrackFormat.TitleCaseCapitalises` | src/lib/trackFormat.ts:34-35 | Any other plain word is capitalised and the rest of it lower-cased. |
| `TrackFormat.PrettyTitleBlank` | src/lib/trackFormat.ts:43-45 | A blank raw title is shown as the em dash. |
| `Feed.SiteOf` | src/pages/rss.xml.ts:4 | The site is the configured `SITE` when it is non-empty, else `https://radioabf.com`. |
| `Feed.RowsOf` | src/pages/rss.xml.ts:22 | The rows are the response's `data`, or none when it is missing. |
| `Feed.PubSource` | src/pages/rss.xml.ts:39 | The publication date is used when set, else the creation date, else none. A chosen date is never empty. |
| `Feed.RadioChannel` | src/pages/rss.xml.ts:4-26 | The channel carries the given site and asset base. |
| `Feed.ItemOfFacts` | src/pages/rss.xml.ts:37-54 | An item keeps the row's title and links to `SITE/news/<slug>`. It has a description exactly when the row has an excerpt, which it then holds. It has an enclosure exactly when the row has a cover and Directus is configured, and that enclosure is the 1200x630 cover-fit quality-85 asset URL. Its date is the converted publication date, else the converted creation date, else the current time. |
| `Feed.EscFacts` | src/pages/rss.xml.ts:67-69 | Both escapers leave no raw `<`, `>` or `"`. Unescaping gives the text back with `>` turned into `<` for the escaper as written, and the text itself for the corrected one or when the text has no `>`. |
| `Feed.ConcatAround` | src/pages/rss.xml.ts:45-54 | A document made of parts is the parts before the i-th, that part, and the parts after it. |
| `Feed.ItemLines` | src/pages/rss.xml.ts:45-54 | An item is written as eight lines from `<item>` to `</item>`. The description line is empty exactly when there is no excerpt, and otherwise carries the excerpt unescaped inside CDATA. The enclosure line is empty exactly when there is no cover URL. |
| `Feed.LineReadBack` | src/pages/rss.xml.ts:47 | A reader who finds an opening tag and reads up to the next `<` gets exactly the escaped value. |
| `Feed.PartReadBack` | src/pages/rss.xml.ts:45-54 | The same holds for a line placed anywhere among other lines. |
| `Feed.RenderItemTitle` | src/pages/rss.xml.ts:47 | The text after `<title>` decodes to the item's title (for the escaper as written, with `>` shown as `<`). |
| `Feed.RenderItemLink` | src/pages/rss.xml.ts:48 | The text after `<link>` decodes to the article link. |
| `Feed.RenderItemGuid` | src/pages/rss.xml.ts:49 | The text after the `<guid>` tag decodes to the article link too. |
| `Feed.RenderItemBlock` | src/pages/rss.xml.ts:45-54 | Each item opens with `<item>` and closes with `</item>`. Without an excerpt there is no description line, and without a cover no enclosure line. |
| `Feed.ItemsAround` | src/pages/rss.xml.ts:36-56 | The joined items are those of the rows before, the row's own item and those of the rows after. |
| `Feed.FeedItemInOrder` | src/pages/rss.xml.ts:28-57 | In the feed, each row's item sits between the items of the rows before and after it: the items follow the response's order. |
| `Escape.RssEscapeXmlSwapsGreaterThan` | src/pages/rss.xml.ts:67-69 | The feed's escaper as written turns `>` into `&lt;`, which a reader decodes as `<`. |
| `Escape.RssEscapeXmlDecodes` | src/pages/rss.xml.ts:67-69 | Decoding the feed escaper's output gives the text with every `>` replaced by `<`, and the text itself when it has no `>`. |
| `Escape.RssEscapeXmlSafe` | src/pages/rss.xml.ts:67-69 | The feed escaper leaves no raw `<`, `>` or `"`. |
| `Sitemap.LastSource` | src/pages/sitemap.xml.ts:30 | lastmod comes from the publication date, else the update date, else the creation date, else none. |
| `Sitemap.BuildUrls` | src/pages/sitemap.xml.ts:24-35 | The loop builds the listing page followed by one URL per row with a slug, in row order (`Entries`). |
| `Sitemap.EntriesCount` | src/pages/sitemap.xml.ts:28-35 | There is exactly one URL per row with a slug, plus the listing page. |
| `Sitemap.EntriesInOrder` | src/pages/sitemap.xml.ts:28-35 | A row with a slug gives the URL right after those of the earlier rows with a slug. |
| `Sitemap.UrlOfFacts` | src/pages/sitemap.xml.ts:29-34 | The loc is `SITE/news/<slug>`. lastmod is set exactly when one of the three dates is, and is the converted date chosen in that order. |
| `Sitemap.UrlsStartWithListing` | src/pages/sitemap.xml.ts:24-26 | The first URL is `SITE/news`, without lastmod. |
| `Sitemap.UrlBlocks` | src/pages/sitemap.xml.ts:40-47 | There is one block per URL, in order. |
| `Sitemap.SitemapBlocksAt` | src/pages/sitemap.xml.ts:40-48 | Consecutive blocks are separated by exactly one newline, in list order. |
| `Sitemap.UrlBlockLoc` | src/pages/sitemap.xml.ts:44 | The text after `<loc>` decodes back to the location. |
| `Sitemap.UrlBlockLastmod` | src/pages/sitemap.xml.ts:45 | With a lastmod, the text after `<lastmod>` decodes back to it; without one the block has no lastmod line. |
| `Escape.EscapeXmlSafe` | src/pages/sitemap.xml.ts:59-61 | The output has no raw `<`, `>` or `"`. |
| `Escape.EscapeXmlRoundTrip` | src/pages/sitemap.xml.ts:59-61 | Unescaping the output gives back the input exactly. |
| `Escape.EscapeXmlOnePass` | src/pages/sitemap.xml.ts:59-61 | The chain equals one left-to-right pass mapping each character to its entity: `&` goes first, so no entity is escaped twice. |
| `Escape.EntityOfUnmatched` | src/pages/api/contact.ts:72-79 | A character that no rule replaces is copied as it is. |
| `Escape.ChainIsOnePass` | src/pages/api/contact.ts:72-79 | When no replacement text contains a character that a later rule replaces, the chain of global replaces equals one pass that maps each character to its replacement. |
| `Escape.HtmlEntity` | src/pages/api/contact.ts:74-78 | Each character's replacement is the one the `esc` rules give it. |
| `Escape.EscapeHtmlOnePass` | src/pages/api/contact.ts:72-79 | `esc` and `escapeHtml` equal one pass mapping `& < > " '` to their entities: `&` goes first, so no entity is escaped twice. |
| `Escape.EscapeHtmlAvoids` | public/scripts/dedications-global.js:38-45 | None of `< > " '` survives escaping. |
| `Escape.EscapeHtmlSafe` | public/scripts/dedications-global.js:38-45 | The escaped text has no raw `<`, `>`, `"` or `'`. |
| `Escape.EscapeHtmlRoundTrip` | public/scripts/dedications-global.js:38-45 | Unescaping the escaped text gives back the input exactly. |
| `Escape.UnescapeEntity` | public/scripts/dedications-global.js:41-44 | A reader decodes each entity written by the HTML or the XML escaper back to its character. |
| `Escape.XmlEntity` | src/pages/sitemap.xml.ts:60 | Each character's replacement is the one the sitemap's rules give it. |
| `Escape.EscapeXmlAvoids` | src/pages/sitemap.xml.ts:59-61 | None of `< > "` survives the sitemap's escaper. |
| `Escape.RssEntity` | src/pages/rss.xml.ts:68 | Each character's replacement is the one the feed's rules give it. |
| `Escape.RssEscapeXmlOnePass` | src/pages/rss.xml.ts:67-69 | The feed's chain equals one pass mapping each character to its replacement. |
| `Escape.UnescapeRssEntities` | src/pages/rss.xml.ts:67-69 | Decoding the feed's one-pass output gives the text with `>` replaced by `<`. |
| `Dedications.EscapeHtmlValue` | public/scripts/dedications-global.js:38-45 | `escapeHtml(null)` and `escapeHtml(undefined)` give "". The output never holds a raw `<`, `>`, `"` or `'`. |
| `Dedications.EscapeHtmlValueRoundTrip` | public/scripts/dedications-global.js:38-45 | Unescaping gives back `String(v ?? "")`. |
| `Dedications.NameTextDefault` | public/scripts/dedications-global.js:102-103 | A falsy name shows as "Auditeur Anonyme", a truthy one as its trimmed string. The shown name is always trimmed. |
| `Dedications.PartPieces` | public/scripts/dedications-global.js:104 | One dedication is written as five pieces. |
| `Dedications.PartReadBack` | public/scripts/dedications-global.js:101-105 | Reading a ticker part after the name tag, and after `</strong> : `, decodes to the shown name and the shown message. |
| `Dedications.Parts` | public/scripts/dedications-global.js:101-105 | There is one part per dedication. |
| `Dedications.Fill` | public/scripts/dedications-global.js:110 | `Array(n).fill(s)` holds `n` copies of `s`. |
| `Dedications.RepeatLength` | public/scripts/dedications-global.js:110 | `n` copies joined by a separator are `n` copies long plus `n - 1` separators. |
| `Dedications.JoinFill` | public/scripts/dedications-global.js:110 | Joining the filled array is repeating the text with the separator in between. |
| `Dedications.TickerShape` | public/scripts/dedications-global.js:97-115 | No dedication gives the placeholder. One to three give the parts joined by `" • "`. More than three give that joined text ten times over, separated by `" • "`, with the length that implies. |
| `Dedications.TickerOrder` | public/scripts/dedications-global.js:101-106 | The joined ticker is the parts of the earlier dedications, one bullet, then the parts from the i-th on, which begin with the i-th dedication's part: the ticker keeps the list's order. |
| `Dedications.PartsSlices` | public/scripts/dedications-global.js:101-105 | The parts of a prefix or a suffix of the list are the prefix or suffix of the parts. |
| `Dedications.ComputeLatest` | public/scripts/dedications-global.js:83-85 | The latest date is the first item's `date_created` when that is truthy, and "" otherwise. |
| `Dedications.ItemsOf` | public/scripts/dedications-global.js:95 | The items are the response's `data`, or none. |
| `Dedications.ShouldReloadCases` | public/scripts/dedications-global.js:132-144 | No known date never reloads, and neither does a failed, empty or unchanged latest date. A reload happens exactly when a known date exists and the newest date is truthy and different. |
| `Dedications.TickerState.constructor` | public/scripts/dedications-global.js:87-130 | The state starts empty, with no listener registered. |
| `Dedications.TickerState.LoadFull` | public/scripts/dedications-global.js:87-130 | With a ticker element and a list, `html` becomes the ticker of the items and `latest` their latest date. Without an element or on a failed request nothing changes. The listener flags are kept. |
| `Dedications.TickerState.CheckNew` | public/scripts/dedications-global.js:132-144 | A reload happens exactly when `ShouldReload` holds for the previous latest date, and then the state is that of `LoadFull`. Otherwise the state is unchanged. |
| `Dedications.TickerState.BindModalDelegationOnce` | public/scripts/dedications-global.js:271-273 | The modal listener is registered only on the first call. There is never more than one, and the rest of the state is unchanged. |
| `Dedications.TickerState.BindFormDelegationOnce` | public/scripts/dedications-global.js:378-380 | The form listener is registered only on the first call. There is never more than one, and the rest of the state is unchanged. |
| `Dedications.TickerState.Mount` | public/scripts/dedications-global.js:433-443 | However often it is called, exactly one modal listener and one form listener are registered, and the ticker content is kept. |
| `Dedications.SubmitFacts` | public/scripts/dedications-global.js:392-410 | A blank message is refused before anything is sent. Otherwise the payload holds the trimmed message and the trimmed name, or "Auditeur Anonyme" exactly when the name is blank. |
| `NewsImport.DropCR` | scripts/import-news-directus.mjs:10 | A line loses at most one trailing carriage return, so `/\r?\n/` splits like `\n` followed by dropping `\r`. |
| `NewsImport.EnvLines` | scripts/import-news-directus.mjs:10 | There is one line per `\n`-separated piece, with its trailing `\r` removed. |
| `NewsImport.ParseEnvLineFacts` | scripts/import-news-directus.mjs:11-16 | A blank line, a comment, or a line without `=` sets nothing. Otherwise the line splits at its first `=` into a trimmed key without `=` and a trimmed value. |
| `NewsImport.ParseEnvLineRoundTrip` | scripts/import-news-directus.mjs:11-16 | `k=v` parses back to `(k, v)` for a trimmed key without `=` that is not a comment, and a trimmed value. |
| `NewsImport.LoadedKeeps` | scripts/import-news-directus.mjs:17 | A variable already set to a non-empty value is never overwritten by the file. |
| `NewsImport.LoadedFrom` | scripts/import-news-directus.mjs:10-18 | After loading, a variable is defined exactly when it was before or some line sets it. Its value is the old one or one written by a line. |
| `NewsImport.LoadedFirstWins` | scripts/import-news-directus.mjs:17 | For an unset variable, the first line giving it a non-empty value decides its value. |
| `NewsImport.Environment.constructor` | scripts/import-news-directus.mjs:6-7 | The environment starts as the process's. |
| `NewsImport.Environment.LoadDotEnv` | scripts/import-news-directus.mjs:6-19 | Without a `.env` file nothing changes. Otherwise the loop leaves exactly `Loaded(old vars, lines)`. |
| `NewsImport.SetupFacts` | scripts/import-news-directus.mjs:21-32 | The script stops on the first unset or empty one of `DIRECTUS_URL` and `DIRECTUS_TOKEN`. Otherwise the URL is the configured one minus its trailing slashes, and ends in none. The token is the configured one and the collection is never empty. |
| `NewsImport.GuessMimeIgnoresCase` | scripts/import-news-directus.mjs:59-66 | The MIME type does not depend on the extension's letter case. |
| `NewsImport.GuessMimeOther` | scripts/import-news-directus.mjs:59-66 | An extension not shaped like `.xxx` or `.xxxx` gets `application/octet-stream`. |
| `NewsImport.PayloadFacts` | scripts/import-news-directus.mjs:96-109 | The payload has exactly title, slug, excerpt, content, published_at and status, plus cover when a cover id was uploaded. Status is "published"; falsy text fields become "" and a falsy date becomes null. |
| `NewsImport.CoverId` | scripts/import-news-directus.mjs:80-94 | No local cover means no cover id. A cover id is always the uploaded file's id. |
| `NewsImport.Plan` | scripts/import-news-directus.mjs:143-171 | There is one action per item. |
| `NewsImport.PlanAction` | scripts/import-news-directus.mjs:143-171 | An item is skipped exactly when it has no slug. It is created exactly when its slug is neither in the store nor in an earlier item, and otherwise updated under its slug. Both carry the item's payload. |
| `NewsImport.CountsAdd` | scripts/import-news-directus.mjs:139-171 | Created, updated and skipped add up to the number of items. |
| `NewsImport.CountsAppend` | scripts/import-news-directus.mjs:139-171 | Each counter adds up over consecutive runs. |
| `NewsImport.ImportNews` | scripts/import-news-directus.mjs:129-174 | The loop's actions are `Plan(items, uploads, store)`, its counters count them, and they add up to the number of items. |
| `NewsClean.RemoveAll` | public/scripts/clean-news.mjs:8-20 | A global removal never lengthens the text. |
| `NewsClean.RemoveAllKeeps` | public/scripts/clean-news.mjs:8-20 | Text where no match starts is copied unchanged up to the next possible match. |
| `NewsClean.RemoveAllNone` | public/scripts/clean-news.mjs:8-20 | Without any match the text is unchanged. |
| `NewsClean.ShareAt` | public/scripts/clean-news.mjs:10 | A share-block match starts with `<div class="share">` in any case, at the position tried. |
| `NewsClean.BlockAtSpan` | public/scripts/clean-news.mjs:10 | A block match is lazy: it ends at the first closing tag after the opening one. |
| `NewsClean.ShareAtSpan` | public/scripts/clean-news.mjs:10 | The share block ends right after the first `</div>` that follows it. |
| `NewsClean.RemovesShareBlock` | public/scripts/clean-news.mjs:8-11 | The text before the first share opening tag is kept, whatever markup it holds. The block, up to its first `</div>` and the whitespace after it, is removed, and the rest is processed in turn. |
| `NewsClean.CopyAt` | public/scripts/clean-news.mjs:14 | A copy-button match starts with `<button` at the position tried. |
| `NewsClean.CopyAtSpan` | public/scripts/clean-news.mjs:14 | A `<button` whose own tag holds `id="copyUrl"` is removed up to the first `</button>` after that attribute. |
| `NewsClean.CopyRestSpan` | public/scripts/clean-news.mjs:14 | The match ends after the first closing tag that follows the first occurrence of the attribute. |
| `NewsClean.FbAt` | public/scripts/clean-news.mjs:19 | An emoji-image match starts with `<img` at the position tried. |
| `NewsClean.FbAtSpan` | public/scripts/clean-news.mjs:19 | An `<img` tag naming `static.xx.fbcdn.net` inside it is removed up to its `>`. |
| `NewsClean.NoMatchWithoutTag` | public/scripts/clean-news.mjs:8-20 | No removal starts at a character other than `<`. |
| `NewsClean.TrailingClose` | public/scripts/clean-news.mjs:24 | `<\/div>\s*$` is a `</div>` followed only by whitespace. |
| `NewsClean.TrailingCloseUnique` | public/scripts/clean-news.mjs:24 | That closing tag is unique. |
| `NewsClean.FindDetails` | public/scripts/clean-news.mjs:24 | The details block found is the first opening that reaches the trailing `</div>`. |
| `NewsClean.KeepDetailsAbsent` | public/scripts/clean-news.mjs:24-25 | Text without a details block is kept as it is. |
| `NewsClean.KeepDetailsBlock` | public/scripts/clean-news.mjs:22-27 | A document that ends in a details block followed only by whitespace becomes a plain `<div class="details">` holding the trimmed inner text. Whatever comes before the block is dropped, provided it holds no details opening tag of its own. |
| `NewsClean.KeepDetailsSpan` | public/scripts/clean-news.mjs:24-26 | When the first details opening tag is at any position and its content reaches the `</div>` that only whitespace follows, the result is that content, trimmed, inside `<div class="details">`; the text before the tag is dropped. |
| `NewsClean.KeepDetailsIdempotent` | public/scripts/clean-news.mjs:22-27 | Reducing to the details block twice is the same as once. |
| `NewsClean.Squeeze` | public/scripts/clean-news.mjs:41 | `/\n{3,}/g -> "\n\n"` keeps emptiness and a non-newline first character. |
| `NewsClean.SqueezeNoTriple` | public/scripts/clean-news.mjs:41 | The squeezed text never holds three newlines in a row. |
| `NewsClean.TrimKeepsNoTriple` | public/scripts/clean-news.mjs:41 | Trimming keeps that. |
| `NewsClean.CleanHtmlShape` | public/scripts/clean-news.mjs:29-43 | Falsy content gives "". A string always gives a result, which is trimmed and free of triple newlines. |
| `NewsClean.CleanHtmlPlain` | public/scripts/clean-news.mjs:29-43 | Content without any tag is only squeezed and trimmed. |
| `NewsClean.WidgetsPlain` | public/scripts/clean-news.mjs:33-35 | The three removals leave tag-free content unchanged. |
| `NewsClean.ExcerptRule` | public/scripts/clean-news.mjs:61 | A given excerpt longer than 20 characters is kept. Otherwise the first 180 characters of the text are used, ending in `…` when cut. |
| `NewsClean.CleanItemFields` | public/scripts/clean-news.mjs:58-69 | Every field other than content_html, content_text and excerpt is kept as it was, and those three are strings. |
| `NewsClean.CleanItemExcerpt` | public/scripts/clean-news.mjs:59-67 | content_html is the cleaned HTML, content_text its stripped text, and the excerpt follows the excerpt rule on that text. |
| `NewsClean.CleanAll` | public/scripts/clean-news.mjs:58-69 | The cleaned list has one item per input item, each the cleaned item. It fails only if some item's content cannot be cleaned. |
| `Text.CleanText` | public/scripts/export-news.mjs:14-16 | `cleanText`: the result is trimmed, has no two spaces side by side, and its only whitespace is the plain space. |
| `Text.CleanTextIdempotent` | public/scripts/export-news.mjs:14-16 | Cleaning cleaned text changes nothing. |
| `NewsExport.StripTagsShape` | public/scripts/export-news.mjs:14-20 | Stripped text is trimmed, has no adjacent whitespace, holds only plain spaces as whitespace, and contains no complete tag. Text without `<` is only cleaned. |
| `NewsExport.FirstNFits` | public/scripts/export-news.mjs:22-25 | The result never exceeds `n` characters. A cleaned text that fits is returned whole. A longer one becomes a trimmed prefix of the cleaned text followed by `…`. |
| `NewsExport.CutFits` | public/scripts/export-news.mjs:24 | The same bounds hold for the cut of an already trimmed text. |
| `NewsExport.CutTrimmed` | public/scripts/export-news.mjs:24 | Trimming a prefix of a trimmed text gives a prefix of it that is no longer. |
| `NewsExport.LinkAt` | public/scripts/export-news.mjs:55 | A match is `href="https://radioabf.com/news/` then `radio/` or `music/`, at least one character other than `"`, and a closing `"`. The category is the matched section. |
| `NewsExport.LinkAtText` | public/scripts/export-news.mjs:55-59 | The URL pushed is exactly the text between the quotes. |
| `NewsExport.LinkAtShape` | public/scripts/export-news.mjs:55-59 | Each match is an article link and the scan moves forward. |
| `NewsExport.HeadThenTail` | public/scripts/export-news.mjs:55 | Any `radio` or `music` article URL without a quote is an article link. |
| `NewsExport.RawLinksShape` | public/scripts/export-news.mjs:55-60 | Every link found is an article link. |
| `NewsExport.FirstWith` | public/scripts/export-news.mjs:62-63 | The first position holding a URL, or the length when there is none. |
| `NewsExport.KeepFirst` | public/scripts/export-news.mjs:62-63 | The filter keeps only input links whose URL was not seen before. |
| `NewsExport.KeepFirstDistinct` | public/scripts/export-news.mjs:62-63 | The kept links have distinct URLs. |
| `NewsExport.KeepFirstComplete` | public/scripts/export-news.mjs:62-63 | Every URL of the input that was not already seen is kept. |
| `NewsExport.KeepFirstOrder` | public/scripts/export-news.mjs:62-63 | Each kept link is the first input link with its URL, and the kept links follow the order of those first occurrences. |
| `NewsExport.ScanLinks` | public/scripts/export-news.mjs:57-60 | The `re.exec` loop collects exactly the matches from the start of the page. |
| `NewsExport.KeepFirstLinks` | public/scripts/export-news.mjs:62-63 | The filter with its `seen` set computes `KeepFirst`. |
| `NewsExport.ExtractListingLinks` | public/scripts/export-news.mjs:54-64 | The method returns `ListingLinks(h)`. |
| `NewsExport.ListingLinksFacts` | public/scripts/export-news.mjs:54-64 | The listing links are article links with distinct URLs. Every URL found is present, in first-occurrence order. |
| `NewsExport.PageAt` | public/scripts/export-news.mjs:71 | A page match is the pagination URL followed by a maximal run of digits, and the number is their decimal value. |
| `NewsExport.LargestFacts` | public/scripts/export-news.mjs:72-77 | The running maximum is at least the start value, at least every number, and is one of them or the start value. |
| `NewsExport.ExtractMaxPage` | public/scripts/export-news.mjs:70-79 | The loop returns `MaxPage(h)`. |
| `NewsExport.MaxPageFacts` | public/scripts/export-news.mjs:70-79 | The page count is at least 1 and at least every page number linked, and it is 1 or one of them. |
| `NewsExport.LastSegment` | public/scripts/export-news.mjs:146 | The slug has no `/`, is a suffix of the URL, and is preceded by `/` unless it is the whole URL. |
| `NewsExport.LastSegmentUnique` | public/scripts/export-news.mjs:146 | Those properties determine the slug. |
| `NewsExport.SplitLastSegment` | public/scripts/export-news.mjs:146 | The last piece of `url.split("/")` is that segment. |
| `NewsExport.CoverUrl` | public/scripts/export-news.mjs:134-139 | There is a cover URL exactly when a non-empty one was found. It always starts with `http`: an absolute one is kept, any other is prefixed with the site. |
| `NewsExport.ArticleFacts` | public/scripts/export-news.mjs:89-159 | The slug has no `/` and ends the URL. The excerpt has at most 180 characters and is the whole text when that fits. The cover URL is absolute. |
| `NewsExport.ExcerptFits` | public/scripts/export-news.mjs:143 | The excerpt has at most 180 characters, and a cleaned text that fits is its own excerpt. |
| `NewsExport.VisitPages` | public/scripts/export-news.mjs:173-208 | The nested loops with `visitedArticles` export the first occurrence of each link over pages 1 to `maxPage`, in order. |
| `NewsExport.ExportLinks` | public/scripts/export-news.mjs:161-208 | The walk reads the page count from the first page and exports `Exported(first, listing)`. |
| `NewsExport.PagesLinksHas` | public/scripts/export-news.mjs:173-178 | Links of any page in the range are among those walked. |
| `NewsExport.ExportedFacts` | public/scripts/export-news.mjs:161-208 | Each article is exported once, and every link on every page up to the page count is exported. |
| `Slug.DashRuns` | scripts/seed-programs-from-static.mjs:102 | `/[^a-z0-9]+/g -> "-"` leaves only slug characters and dashes, and starts with a dash exactly when the text starts with a non-slug character. |
| `Slug.Alnum` | scripts/seed-programs-from-static.mjs:102 | The letters and digits of a text, in order. |
| `Slug.DropLeading` | scripts/seed-programs-from-static.mjs:103 | `^-+` removal drops exactly the leading dashes. |
| `Slug.DropMarks` | scripts/seed-programs-from-static.mjs:101 | No combining diacritical mark is left. |
| `Slug.DashRunsNoDouble` | scripts/seed-programs-from-static.mjs:102 | After the replacement no two dashes are adjacent. |
| `Slug.DashRunsKeepsAlnum` | scripts/seed-programs-from-static.mjs:102 | The replacement keeps every letter and digit, in order. |
| `Slug.StripDashesKeepsAlnum` | scripts/seed-programs-from-static.mjs:103 | Stripping the outer dashes keeps every letter and digit. |
| `Slug.StripDashesWellFormed` | scripts/seed-programs-from-static.mjs:103 | After the strip the slug has no outer dash and no double dash. |
| `Slug.SlugCoreWellFormed` | scripts/seed-programs-from-static.mjs:102-103 | The uncut slug is well formed and keeps all letters and digits of its input in order. |
| `Slug.CutSlug` | scripts/seed-programs-from-static.mjs:104 | Cutting a well-formed slug keeps it well formed, except that it can end in a dash, and only when the slug was longer than the cut. |
| `Slug.SlugifyShape` | scripts/seed-programs-from-static.mjs:96-105 | A slug has at most 80 characters, only `a-z0-9-`, no leading dash and no double dash. A trailing dash appears only when the cut fell on one. |
| `Slug.SafeFilenameShape` | public/scripts/export-news.mjs:27-33 | A file name has at most 120 characters, only `a-z0-9-` and no leading dash. |
| `Slug.DashRunsOfWellFormed` | scripts/seed-programs-from-static.mjs:102 | The replacement leaves text that is already slug-shaped unchanged. |
| `Slug.SlugCoreOfWellFormed` | scripts/seed-programs-from-static.mjs:102-103 | A well-formed slug is its own uncut slug. |
| `Slug.SlugCoreIdempotent` | scripts/seed-programs-from-static.mjs:102-103 | Slugifying twice is slugifying once, before the cut. |
| `Slug.SlugifyOfSlug` | public/scripts/import-programs-from-site.mjs:27-36 | A well-formed slug of at most 80 characters is its own slug. |
| `ProgramImport.HourLen` | scripts/seed-programs-from-static.mjs:85 | The `\d{1,2}` of the time pattern: at most two leading digits, all digits, and stopped by a non-digit when shorter than two. |
| `ProgramImport.PadHour` | scripts/seed-programs-from-static.mjs:87 | `padStart(2, "0")`: two digits, a lone digit gets a leading `0`, two digits are kept. |
| `ProgramImport.MatchH` | scripts/seed-programs-from-static.mjs:85 | A match of `^(\d{1,2})\s*h\s*(\d{2})$` yields one or two hour digits and two minute digits. |
| `ProgramImport.SkipSpacesTo` | scripts/seed-programs-from-static.mjs:85 | `\s*` stops at the first non-space character. |
| `ProgramImport.HourLenOfHForm` | scripts/seed-programs-from-static.mjs:85 | In a string of the `h` form the digit run has the form's hour length. |
| `ProgramImport.MatchHComplete` | scripts/seed-programs-from-static.mjs:85 | Every string of the `h` form (digits, spaces, `h` or `H`, spaces, two digits, nothing after) matches, with the leading digits and the last two characters as groups. |
| `ProgramImport.MatchHSound` | scripts/seed-programs-from-static.mjs:85 | Only strings of the `h` form match. |
| `ProgramImport.ClockOf` | scripts/seed-programs-from-static.mjs:87 | The `HH:MM:SS` template: a clock text whose hour is the padded hour and whose minutes and seconds are the given ones. |
| `ProgramImport.SeedClock` | scripts/seed-programs-from-static.mjs:82-88 | The seed parser always yields a clock text whose seconds are `00`. |
| `ProgramImport.SeedClockOfHForm` | scripts/seed-programs-from-static.mjs:85-87 | `"20h00"`-style text becomes the padded hour, the minutes and `:00`. |
| `ProgramImport.SeedClockOtherwise` | scripts/seed-programs-from-static.mjs:86 | Any other text becomes `00:00:00`. |
| `ProgramImport.SecondsOf` | public/scripts/import-programs-from-site.mjs:57 | The optional `(?::\s*(\d{2}))?` group yields two digits when present. |
| `ProgramImport.MatchColon` | public/scripts/import-programs-from-site.mjs:57 | A match of the colon pattern yields one or two hour digits, two minute digits and optionally two second digits. |
| `ProgramImport.ImportClock` | public/scripts/import-programs-from-site.mjs:46-61 | The site parser always yields a clock text and agrees with the seed parser on the `h` form. |
| `ProgramImport.ColonClock` | public/scripts/import-programs-from-site.mjs:58 | The colon branch yields a clock text. |
| `ProgramImport.HourLenOf` | public/scripts/import-programs-from-site.mjs:57 | The hour group of `h + t` is `h` when `t` starts with a non-digit. |
| `ProgramImport.ImportClockNoSeconds` | public/scripts/import-programs-from-site.mjs:57-58 | `"18:00"` followed by anything but a colon (as in `"18:00 (CET)"`) becomes `18:00:00`: the colon pattern is not anchored at the end. |
| `ProgramImport.ImportClockSeconds` | public/scripts/import-programs-from-site.mjs:57-58 | `"18:00:30…"` keeps its seconds. |
| `ProgramImport.NextCover` | scripts/seed-programs-from-static.mjs:146-150 | A cover is sent exactly when there is a new file id and the stored program has no cover, and it is that id. |
| `ProgramImport.Upsert` | scripts/seed-programs-from-static.mjs:140-166 | The program under the slug is PATCHed (keeping its id) or POSTed with the next id; title and description are replaced; other programs and the occurrences are untouched. |
| `ProgramImport.UpsertKeepsCover` | scripts/seed-programs-from-static.mjs:146-157 | A cover already set is never replaced or cleared. |
| `ProgramImport.SeedEnv` | scripts/seed-programs-from-static.mjs:82-105 | The seed script's loop parses times with its `h`-only parser and slugs with its `slugify`. |
| `ProgramImport.SiteEnv` | public/scripts/import-programs-from-site.mjs:27-62 | The site importer's loop parses times with both forms and the same `slugify`. |
| `ProgramImport.ImportItem` | scripts/seed-programs-from-static.mjs:221-259 | One item: skipped without a title, otherwise upload, upsert and occurrence check, aborting on an empty slug, as the step function says. |
| `ProgramImport.PlaceItem` | scripts/seed-programs-from-static.mjs:248-259 | The upsert, the created/updated count and the occurrence added only when missing. |
| `ProgramImport.ImportDay` | scripts/seed-programs-from-static.mjs:221-260 | The inner loop over a day's items, stopping at the first abort. |
| `ProgramImport.ImportSchedule` | scripts/seed-programs-from-static.mjs:209-261 | The outer loop over the days, from zeroed counters. |
| `ProgramImport.RunItemsAbortedStays` | scripts/seed-programs-from-static.mjs:142 | Once a day's run has thrown, the later items change nothing. |
| `ProgramImport.RunDaysAbortedStays` | scripts/seed-programs-from-static.mjs:142 | Once the run has thrown, the later days change nothing. |
| `ProgramImport.ExtendsTrans` | scripts/seed-programs-from-static.mjs:140-184 | "Keeps every program, id, set cover and occurrence" composes. |
| `ProgramImport.PlacedStays` | scripts/seed-programs-from-static.mjs:168-184 | An occurrence in place stays in place as the store grows. |
| `ProgramImport.PlaceFacts` | scripts/seed-programs-from-static.mjs:248-259 | Placing an item keeps the store, puts its occurrence in place, counts one create or update, and never duplicates an occurrence. |
| `ProgramImport.PlaceAgain` | scripts/seed-programs-from-static.mjs:252-259 | Placing an item already in place creates nothing: it counts as an update and adds no occurrence. |
| `ProgramImport.StepFacts` | scripts/seed-programs-from-static.mjs:221-259 | One item keeps the store, never duplicates an occurrence and, when it finishes, counts its title once and is in place. |
| `ProgramImport.StepAgain` | scripts/seed-programs-from-static.mjs:221-259 | An item already in place finishes and creates nothing. |
| `ProgramImport.ItemPlacedStays` | scripts/seed-programs-from-static.mjs:168-184 | An item in place stays in place as the store grows. |
| `ProgramImport.RunItemsFacts` | scripts/seed-programs-from-static.mjs:221-260 | A day's loop keeps the store, never duplicates an occurrence and, when it finishes, accounts for every titled item and has every item in place. |
| `ProgramImport.RunDaysFacts` | scripts/seed-programs-from-static.mjs:218-261 | The same for the whole schedule. |
| `ProgramImport.RunItemsAgain` | scripts/seed-programs-from-static.mjs:221-260 | A day whose items are all in place creates nothing. |
| `ProgramImport.RunDaysAgain` | scripts/seed-programs-from-static.mjs:218-261 | A schedule whose items are all in place creates nothing. |
| `ProgramImport.ImportCounters` | scripts/seed-programs-from-static.mjs:213-267 | The printed counters are true: created plus updated is the number of titled items, created is the number of new ids, occurrences created is the number of new occurrences, and no more files than titled items. |
| `ProgramImport.ImportKeepsStore` | scripts/seed-programs-from-static.mjs:209-261 | A run, finished or aborted, deletes nothing, keeps ids and set covers, and never stores an occurrence twice. |
| `ProgramImport.ImportRerunCreatesNothing` | scripts/seed-programs-from-static.mjs:209-261 | Re-running the import over the store a finished run left creates no program and no occurrence. |
| `ScheduleScrape.DigitRun` | public/scripts/import-programs-from-site.mjs:196 | The `\d+` of a numeric entity: the longest run of leading digits. |
| `ScheduleScrape.DecodeNumericPlain` | public/scripts/import-programs-from-site.mjs:196 | Text without `&` has no numeric entity to decode. |
| `ScheduleScrape.NoAmpNoEntity` | public/scripts/import-programs-from-site.mjs:191-195 | A named-entity replacement leaves text without `&` unchanged. |
| `ScheduleScrape.DecodePlain` | public/scripts/import-programs-from-site.mjs:189-197 | `decodeHtmlEntities` leaves text without `&` unchanged. |
| `ScheduleScrape.DecodeNumericRef` | public/scripts/import-programs-from-site.mjs:196 | `&#digits;` becomes the character with that decimal code, and decoding goes on after it. |
| `ScheduleScrape.DecodeTwice` | public/scripts/import-programs-from-site.mjs:191-194 | The replacements run one after the other, so `&amp;lt;` decodes all the way to `<`. |
| `ScheduleScrape.StripTagsNoEntities` | public/scripts/import-programs-from-site.mjs:199-201 | Without `&`, `stripTags` is tag removal followed by whitespace cleaning. |
| `ScheduleScrape.StripTagsPlain` | public/scripts/import-programs-from-site.mjs:199-201 | Text with neither `<` nor `&` only has its whitespace cleaned. |
| `ScheduleScrape.KeepCards` | public/scripts/import-programs-from-site.mjs:214-243 | The article loop keeps at most one card per article, each with a time and a title. |
| `ScheduleScrape.KeepCardsExactly` | public/scripts/import-programs-from-site.mjs:231-242 | A card is kept exactly when it is the cleaned card of an article and has both a time and a title. |
| `ScheduleScrape.FirstAfter` | public/scripts/import-programs-from-site.mjs:261 | `alts.find(a => a.idx > t.idx)`: the first label after the time, and none before it qualifies. |
| `ScheduleScrape.PairTimes` | public/scripts/import-programs-from-site.mjs:260-264 | The fallback yields at most one card per time label. |
| `ScheduleScrape.ParseCards` | public/scripts/import-programs-from-site.mjs:203-269 | `parseCardsFromChunk`: the complete article cards, or the fallback pairing when there are none. |
| `ScheduleScrape.KeysSnoc` | public/scripts/import-programs-from-site.mjs:294-300 | The keys seen grow by the key of the card added. |
| `ScheduleScrape.DedupCards` | public/scripts/import-programs-from-site.mjs:293-300 | The `seen`-set loop keeps the first card of each `time__title` key, in order. |
| `ScheduleScrape.DedupDistinct` | public/scripts/import-programs-from-site.mjs:293-300 | After de-duplication no two cards share a key, and every key of the input is still present. |
| `ScheduleScrape.DedupKeepsFirst` | public/scripts/import-programs-from-site.mjs:297-299 | The first card with a given key is kept. |
| `ScheduleScrape.DedupFromInput` | public/scripts/import-programs-from-site.mjs:293-300 | De-duplication only keeps cards of the input. |
| `ScheduleScrape.FindMarker` | public/scripts/import-programs-from-site.mjs:282-286 | The first `data-day="day"` marker at or after a position, or none at all. |
| `ScheduleScrape.ChunkBounds` | public/scripts/import-programs-from-site.mjs:281-290 | A day's chunk starts at the day's first marker, found ignoring case, and ends at the next day's first marker after it or at the end of the page; no chunk without a marker. |
| `ScheduleScrape.RemoveSpaces` | public/scripts/import-programs-from-site.mjs:322 | `replace(/\s+/g, "")` leaves no whitespace and keeps every other character. |
| `ScheduleScrape.SplitStep` | public/scripts/import-programs-from-site.mjs:319-333 | One turn of the Strategy B loop keeps seven days and a day index of at most seven. |
| `ScheduleScrape.SplitAll` | public/scripts/import-programs-from-site.mjs:315-333 | The whole Strategy B loop keeps seven days. |
| `ScheduleScrape.FlattenEmpty` | public/scripts/import-programs-from-site.mjs:272 | Empty days hold no cards. |
| `ScheduleScrape.FlattenPush` | public/scripts/import-programs-from-site.mjs:332 | Pushing onto the last non-empty day appends to the cards read day after day. |
| `ScheduleScrape.SplitStepOk` | public/scripts/import-programs-from-site.mjs:319-333 | One turn keeps the split invariant: earlier days are non-empty, later ones empty, every day after Monday starts with an anchor card, and the days read in order are the cards seen (or a prefix once the loop broke off). |
| `ScheduleScrape.SplitAllOk` | public/scripts/import-programs-from-site.mjs:315-333 | The split invariant holds for the whole loop. |
| `ScheduleScrape.SplitStopped` | public/scripts/import-programs-from-site.mjs:320-328 | Once the loop has broken off past Sunday, later cards change nothing. |
| `ScheduleScrape.SplitDays` | public/scripts/import-programs-from-site.mjs:315-333 | The Strategy B loop computes the split. |
| `ScheduleScrape.DedupDays` | public/scripts/import-programs-from-site.mjs:336-344 | De-duplicating each day keeps seven days. |
| `ScheduleScrape.SectionWeek` | public/scripts/import-programs-from-site.mjs:276-302 | Strategy A yields seven days. |
| `ScheduleScrape.AnchorWeek` | public/scripts/import-programs-from-site.mjs:308-346 | Strategy B yields seven days. |
| `ScheduleScrape.ScheduleOf` | public/scripts/import-programs-from-site.mjs:271-347 | `scrapeScheduleFromHtml` yields seven days, Monday first. |
| `ScheduleScrape.ScrapeSections` | public/scripts/import-programs-from-site.mjs:276-302 | The Strategy A loop computes Strategy A's week. |
| `ScheduleScrape.ScrapeByAnchor` | public/scripts/import-programs-from-site.mjs:308-346 | The Strategy B loops compute Strategy B's week. |
| `ScheduleScrape.ScrapeSchedule` | public/scripts/import-programs-from-site.mjs:271-347 | Strategy A when the page has both a `mon` and a `sun` marker, Strategy B otherwise. |
| `ScheduleScrape.ScheduleDistinct` | public/scripts/import-programs-from-site.mjs:293-344 | No day of the scraped schedule holds two cards with the same time and title. |
| `ScheduleScrape.DayWithoutMarker` | public/scripts/import-programs-from-site.mjs:282-283 | Under Strategy A a day without a marker stays empty. |
| `ScheduleScrape.StrategyB` | public/scripts/import-programs-from-site.mjs:308-333 | Under Strategy B no cards means an empty week, and every scheduled card is a card of the page. |
| `ScheduleScrape.FlattenHas` | public/scripts/import-programs-from-site.mjs:319-333 | A card of a day is among the cards read day after day. |
| `ArtistSync.BgAt` | scripts/sync-artists.mjs:79 | A match of `background-image\s*:\s*url\(([^)]+)\)` at a position: a non-empty group holding no `)`, closed by `)`. |
| `ArtistSync.FindBg` | scripts/sync-artists.mjs:79 | The first position where the pattern matches, or none anywhere. |
| `ArtistSync.StripQuotesOf` | scripts/sync-artists.mjs:81 | One quote is removed at each end, and text without quotes at its ends is kept. |
| `ArtistSync.BgUrlNoParen` | scripts/sync-artists.mjs:77-82 | The URL read from a style never holds `)`. |
| `ArtistSync.StripQuotesKeeps` | scripts/sync-artists.mjs:81 | Removing the quotes keeps only characters of the input. |
| `ArtistSync.BgUrlAbsent` | scripts/sync-artists.mjs:80 | A style without `background-image` yields `""`. |
| `ArtistSync.BgAtStyle` | scripts/sync-artists.mjs:79 | In `background-image: url(g)` the group is exactly `g`. |
| `ArtistSync.BgUrlOfStyle` | scripts/sync-artists.mjs:77-82 | `background-image: url("u")`, with either quote, yields `u`. |
| `ArtistSync.FindThumb` | scripts/sync-artists.mjs:87 | The first position of a `/thumb_X` final segment (with optional query or fragment), or none. |
| `ArtistSync.UnthumbOther` | scripts/sync-artists.mjs:84-88 | A URL without `/thumb_` is unchanged. |
| `ArtistSync.UnthumbRestores` | scripts/sync-artists.mjs:84-88 | `prefix/thumb_X?query` becomes `prefix/X?query`: the final segment loses `thumb_` and the query or fragment is kept. |
| `ArtistSync.DropThumb` | scripts/sync-artists.mjs:87 | Dropping the six characters of `thumb_` after the slash gives `prefix/X…`. |
| `ArtistSync.UnthumbAt` | scripts/sync-artists.mjs:87 | The rewrite removes `thumb_` at the first match. |
| `ArtistSync.PrefixPlain` | scripts/sync-artists.mjs:87 | A prefix without `?` or `#` contributes neither. |
| `ArtistSync.ThumbAtJoin` | scripts/sync-artists.mjs:87 | `prefix/thumb_X` followed by nothing, a query or a fragment matches at the slash. |
| `ArtistSync.NoThumbBefore` | scripts/sync-artists.mjs:87 | No earlier slash can start a match: the segment `[^/?#]+` cannot cross the later slash. |
| `ArtistSync.FindThumbFirst` | scripts/sync-artists.mjs:87 | The match found is at that slash. |
| `ArtistSync.FindSlug` | scripts/sync-artists.mjs:92 | The first position of `/artists/` followed by a segment, ignoring case, or none. |
| `ArtistSync.SlugOf` | scripts/sync-artists.mjs:90-94 | The slug holds no `/`, `?` or `#`, and is empty exactly when there is no `/artists/X`. |
| `ArtistSync.SlugOfArtistUrl` | scripts/sync-artists.mjs:90-94 | `base/artists/slug` followed by nothing or a separator yields `slug` when `base` holds no `/artists`. |
| `ArtistSync.SlugAtJoin` | scripts/sync-artists.mjs:92 | In that URL the pattern matches after `base` and the segment is exactly `slug`. |
| `ArtistSync.ArtistsAtJoin` | scripts/sync-artists.mjs:92 | `/artists/` occurs right after `base`. |
| `ArtistSync.SlugRunJoin` | scripts/sync-artists.mjs:92 | `[^/?#]+` stops at the end of `slug`. |
| `ArtistSync.NoArtistsAt` | scripts/sync-artists.mjs:92 | No match starts inside a `base` holding no `/artists`. |
| `ArtistSync.SlugOfAt` | scripts/sync-artists.mjs:93 | The slug is the segment after the first match. |
| `ArtistSync.FindSlugFirst` | scripts/sync-artists.mjs:92 | The first match is found. |
| `ArtistSync.NormalizeCategories` | scripts/sync-artists.mjs:96-105 | The loop over the genre texts computes the categories. |
| `ArtistSync.GenreCatsExactly` | scripts/sync-artists.mjs:99-102 | The three tests on one genre text keep the set free of duplicates, and they add exactly those of `resident`, `guest` and `team` that the text contains. |
| `ArtistSync.CategoriesExactly` | scripts/sync-artists.mjs:96-105 | The categories are free of duplicates, and a category is present exactly when it is `resident`, `guest` or `team` and some lower-cased genre text contains it. |
| `ArtistSync.FirstGenreBound` | scripts/sync-artists.mjs:98-103 | A detected category is detected by one of the genre texts. |
| `ArtistSync.CategoriesOrdered` | scripts/sync-artists.mjs:98-104 | The categories come in first-detection order: by genre text, then resident before guest before team. |
| `ArtistSync.OldDetection` | scripts/sync-artists.mjs:98-103 | A category found before the last genre text keeps its detection point. |
| `ArtistSync.NewDetection` | scripts/sync-artists.mjs:100-102 | A category added by the last genre text is detected there, at its own rank. |
| `ArtistSync.GenreCatsExtends` | scripts/sync-artists.mjs:100-102 | One genre text only appends. |
| `ArtistSync.GenreCatsNew` | scripts/sync-artists.mjs:100-102 | What one genre text appends was not there before. |
| `ArtistSync.GenreCatsRanked` | scripts/sync-artists.mjs:100-102 | What one genre text appends comes in the order resident, guest, team. |
| `ArtistSync.Segments` | scripts/sync-artists.mjs:251 | `split("/").filter(Boolean)` yields non-empty segments without `/`. |
| `ArtistSync.NonEmpty` | scripts/sync-artists.mjs:251 | `filter(Boolean)` keeps only non-empty parts of its input. |
| `ArtistSync.SplitNoSep` | scripts/sync-artists.mjs:251 | The parts of `split("/")` hold no `/`. |
| `ArtistSync.IndexOfPart` | scripts/sync-artists.mjs:252 | `indexOf`: the first index holding the part, or -1 when it is absent. |
| `ArtistSync.LinkSlug` | scripts/sync-artists.mjs:245-256 | A kept slug is a single non-empty segment. |
| `ArtistSync.LinkSlugExcludes` | scripts/sync-artists.mjs:247-255 | Links whose slug is `artists` or `genre` in any case, and paths with a segment after the one following `artists`, are skipped. |
| `ArtistSync.Merge` | scripts/sync-artists.mjs:261-266 | Adding a page's slugs keeps the earlier slugs in front. |
| `ArtistSync.Collect` | scripts/sync-artists.mjs:225-279 | The paging loop stops on a failed fetch, after page 20 or after two pages in a row with no new slug, and only ever adds slugs. |
| `ArtistSync.PageSlugs` | scripts/sync-artists.mjs:243-257 | The link loop computes the page's `found` set. |
| `ArtistSync.AddSlugs` | scripts/sync-artists.mjs:260-266 | The add loop computes the merged set and counts the new slugs. |
| `ArtistSync.CollectSlugs` | scripts/sync-artists.mjs:216-282 | `collectSlugs` computes the slugs the paging loop collects. |
| `ArtistSync.FoundFacts` | scripts/sync-artists.mjs:243-257 | A page's `found` set has no duplicates and holds single non-empty segments. |
| `ArtistSync.MergeFacts` | scripts/sync-artists.mjs:261-266 | Merging keeps the slugs unique and holds exactly the old and the found slugs. |
| `ArtistSync.CollectFacts` | scripts/sync-artists.mjs:228-279 | The slugs collected from any page on are unique single segments. |
| `ArtistSync.CollectSlugsFacts` | scripts/sync-artists.mjs:225-281 | The returned slugs are unique single segments; at most 20 pages are fetched; the loop ends on a failure, after page 20 or after two empty pages in a row. |

## Where the code is followed

- `NowPlaying.NormKeyNotIdempotent`: `normKey` is not idempotent. Quotes are removed after the spaces are collapsed, so a double space can be left: the artist `a '` with the title `b` gets the key `a  - b`. The model follows the code and proves the counterexample instead of idempotence.
- `NowPlaying.SplitTrackRoundTrip`: splitting `artist + " - " + title` gives back `(artist, title)` only when the artist does not end with `" -"`. An artist `X -` makes the first separator start one character early. The lemma carries that premise.
- `NowPlaying.ExtractNowPlayingTemplate`: because of operator precedence, every non-empty result of `extractNowPlaying` is `` `${artist} - ${title}` ``. A missing field prints as `undefined`.
- `ScheduleScrape.DecodeTwice`: `decodeHtmlEntities` runs its replacements one after the other, so `&amp;lt;` decodes to `<`, not to `&lt;`.
- `ProgramImport`: `public/scripts/import-programs-from-site.mjs` prints no "programs updated" counter. The shared run keeps that counter anyway; the other three counters are the ones that script prints.
- `NewsClean`: `firstNText` and `stripTags` of `public/scripts/clean-news.mjs` do the same as `firstN` and `stripTags` of `public/scripts/export-news.mjs`, so both modules use `NewsExport.FirstN` and `NewsExport.StripTags`.

## Left out

- Network and storage: `fetch`, the Directus calls, file uploads and downloads, reading and writing files, `process.exit` and console output. A response, an upload outcome or a file's content is a parameter or an argument.
- The clock and dates: `Date.now`, `toISOString`, `toUTCString` and the "Posted on" date parsing of the news export. The current time is an integer or a string argument, and the date conversions are function parameters.
- Real concurrency: the background refresh of `directusGet` is a separate `Directus.MicroCache.RefreshCompletes` step, not a promise.
- WHATWG `URL` parsing: `isUrlLike`, the `absUrl` helpers, `new URL` in `collectSlugs`, `encodeURIComponent`, and the file name derived from a URL. These become predicates or the pathname, passed in.
- Unicode: case mapping, case-insensitive matching and `\p{L}`/`\p{N}` cover ASCII letters only. `normalize("NFKD")` is not modelled; only the removal of the combining marks U+0300 to U+036F is.
- String lengths and `slice` count code points, not UTF-16 code units.
- `ScheduleScrape.CharOfCode`: a Dafny `char` cannot hold a lone surrogate, so a code in U+D800 to U+DFFF becomes U+FFFD where `String.fromCharCode` yields that code unit. The digits of `&#N;` are read as an exact integer, while `Number()` rounds a value above 2^53 to the nearest double before the code is reduced modulo 65536.
- `Directus.HeaderKeyIgnoresOrder` is proved about a model of `new Headers(...)` that lower-cases the names and joins the values of one name with ", ". Its removal of leading and trailing whitespace from values, its rejection of invalid names and values, and the separate listing of `set-cookie` values are not modelled. `localeCompare` is modelled as code-point order, which agrees with it on names made of lower-case letters, digits and `-`; for other characters of a header name the two orders can differ.
- `Number()` on a non-numeric or fractional `limit` of `/api/nowplaying`: `NaN` and fractions are not modelled. A limit is absent, empty or an integer.
- Floating point and the DOM: the marquee metrics and animation, the modal, the badge timer, `requestAnimationFrame` and hover handling of the dedications ticker. Whether the ticker element exists is a boolean. The listeners are counted, not run.
- Null entries in the dedications list: the list is a sequence of records.
- Markup heuristics: the article fragments of `extractArticle` in the news export and the regular expressions that find a card's time, image, title and description in `parseCardsFromChunk`. These are arguments, or the `extract` parameter of `ScheduleScrape`.
- HTML traversal with cheerio in `scripts/sync-artists.mjs`: `pickArtistImages`, `stripText`, `rewriteBioHtmlAndDownloadImages` and `mirrorOneArtist`. The `localeCompare` sort of the artist list is not modelled either. The listing links are a parameter.
- `findProgramBySlug` and `occurrenceExists` are lookups in the modelled store. `findExistingBySlug` of the news import is membership in the set of known slugs.
- The response headers of every endpoint, feed and sitemap.
- The cover file name and extension of the news export, and the image base URLs and fallback of the seed script.
- The Directus request of the sitemap. `Sitemap.BuildUrls` takes the rows that `resp?.data ?? []` yields.
- Whole files with no checkable logic: `scripts/abf-chat-widget.js`, `src/scripts/dedications-global.js`, `src/pages/api/cast.mp3.ts`, `src/pages/api/debug-tracks.ts`, `src/pages/og/news.svg.ts`, `src/content/config.ts` and `scripts/import-artists.mjs` are not part of this model.
- Cover resolution and play-log de-duplication for now playing. No file of the site implements them, and the route's history is always empty.

## Findings

| source | as written | input that shows it | evidently intended | confidence | as-written member | corrected member |
|---|---|---|---|---|---|---|
| src/pages/rss.xml.ts:67-69 | `escapeXml` replaces `>` with `&lt;` | a title `a > b` is written `a &lt; b`, and a reader shows `a < b` | `>` becomes `&gt;`, so every escaped text decodes to itself, as `escapeXml` of src/pages/sitemap.xml.ts does | high, not executed | `Escape.RssEscapeXmlDecodes` | `Escape.EscapeXmlRoundTrip` |

`Feed` is written over both escapers (`Feed.Escaper`), so every feed lemma holds for the feed as written and for the corrected one.
