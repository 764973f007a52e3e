# Roku-Server core in Dafny

This project models the three pure cores of a small Roku video-feed server.

- **The feed builder** (`generateJsonFeed`, `extractReleaseDateFromTitle`) takes a directory listing and the outcome of probing each file and builds the feed object:
  - the `.mp4`/`.mkv` filter;
  - the normalised titles;
  - the "Month Day, Year" release dates with the `2024-01-01` fallback;
  - the `YYYY-MM` month buckets, grouped in first-seen order;
  - the groups sorted by how many months they lie before "now";
  - the videos sorted, latest first and stably, inside each group;
  - the `video<i>` ids;
  - the "October 2024" group labels;
  - the all-or-nothing failure of `Promise.all`.
- **The `/stream/:videoName` handler** maps a decoded video name, an optional `Range` header and the files on disk to a response. It covers:
  - the 404 answer;
  - the content type;
  - the `bytes=` parse;
  - the `206` head and the bytes a read stream delivers, or the dropped connection when the read stream rejects the bounds;
  - the `200` whole-file answer;
  - what `path.join` makes of the name, so when the served file stays inside the video directory;
  - `getLocalIPAddress`.

  The handler implements a subset of HTTP range requests (section 14.1.2 of RFC 9110 for the byte-range syntax, section 14.4 for `Content-Range`, section 15.3.7 for `206 Partial Content`). It never answers `416` (section 15.5.17). Bounds the read stream rejects, such as the suffix range `bytes=-500`, get no answer at all: the connection is closed after the `206` head was stored.
- **The archive ledger reconciliation** (`generateArchive`) works on a ledger text with one title per line:
  - it tests file names with the case-insensitive extension pattern;
  - it reads the non-empty lines of the ledger as a set;
  - it appends the titles the ledger lacks as one `\n`-terminated batch.

Everything that touches the outside world is an input of the model:
- the directory listing and `fs.stat` results;
- the `ffprobe` durations;
- thumbnail generation;
- the clock;
- the files on disk;
- the network interfaces.

Modules, one per concern:

- `Strings` (`strings.dfy`): `split`, `join`, prefix and suffix tests, the first `replace`, `indexOf`.
- `JsNumbers` (`numbers.dfy`): decimal text, `parseInt`, `padStart(2, '0')`, and `NaN` as a value.
- `Options` (`options.dfy`): `Option`.
- `Paths` (`paths.dfy`): `path.parse`, `path.extname`, `path.join` and `path.normalize` on absolute paths.
- `StableSort` (`sorting.dfy`): `Array.prototype.sort` with a numeric key comparator.
- `ReleaseDates` (`dates.dfy`): the date pattern, ISO dates, month buckets and labels.
- `FeedItems` (`feed_items.dfy`): the per-file callback.
- `FeedGroups` (`feed_groups.dfy`): the `forEach` that groups by month.
- `FeedBuilder` (`feed.dfy`): the sorts, the feed object and the whole build.
- `StreamServer` (`stream.dfy`): the stream handler and `getLocalIPAddress`.
- `Archive` (`archive.dfy`): ledger reconciliation.

## Model

| member | source | states |
|---|---|---|
| FeedItems.MapEntry | jsonGenerator.js:15-63 | An entry's promise rejects exactly when `fs.stat` fails or an accepted video's probe or thumbnail fails. It is `null` exactly when the entry is not a regular file ending in `.mp4`/`.mkv`. An item carries the id `video<index>`, the normalised title, the title's release date and `2024-01-01` when the title has no date; its date text and month bucket agree with its date. |
| FeedItems.ItemsMembers | jsonGenerator.js:68 | `filter(Boolean)` keeps exactly the items of the mapped entries. |
| FeedItems.NormalizeTitleClean | jsonGenerator.js:23-25 | No `\|`, `｜` or `：` is left, and every other character stays where it was. |
| FeedItems.NormalizeTitleIdempotent | jsonGenerator.js:23-25 | Normalising twice is normalising once. |
| FeedItems.CategoryIgnoresNormalization | jsonGenerator.js:36-39 | The `Events`/`Sermons` choice is the same on the raw stem and on the normalised title. |
| FeedItems.CategoryOf | jsonGenerator.js:36-39 | Every video falls in exactly one of the two categories, `Events` or `Sermons`; it is `Events` exactly when `Event` occurs somewhere in the title. |
| FeedItems.VideoType | jsonGenerator.js:55 | A name ending in `.mp4` gets `MP4` and one ending in `.mkv` gets `MKV`; the bare name `.mp4` or `.mkv` gets the empty type. |
| FeedItems.VideoIdInjective | jsonGenerator.js:42 | Two listing positions get the same id exactly when they are equal. |
| FeedItems.DistinctIds | jsonGenerator.js:42-68 | When every mapped entry carries the id of its listing position, the filtered items have pairwise distinct ids. |
| FeedItems.ItemsDistinctIds | jsonGenerator.js:14-68 | The items of one listing are well formed and have pairwise distinct ids. |
| Paths.StemExtSplit | jsonGenerator.js:23 | `path.parse` splits a name into a stem and an extension that give back the name; the extension is a dot and dot-free text; the stem is empty only for the empty name. |
| Paths.LastDotIndex | jsonGenerator.js:23 | The extension search finds the last `.` of a name: after it there is no other. |
| ReleaseDates.MatchAt | jsonGenerator.js:154 | Whatever is found at a position is an occurrence of the pattern there. |
| ReleaseDates.MatchAtComplete | jsonGenerator.js:154 | An occurrence of the pattern at a position is what `MatchAt` finds: the pattern matches in one way only there. |
| ReleaseDates.FindDate | jsonGenerator.js:154-155 | `match` finds the leftmost occurrence; `None` means there is none anywhere. |
| ReleaseDates.MonthNumber | jsonGenerator.js:159 | A month word gets the number of its English month name, and 0 when it is not one of the twelve. |
| ReleaseDates.EnglishDate | jsonGenerator.js:159 | A date read from a match is a real calendar date whose English month name is the matched word, whose year is the matched year digits and whose day is the matched day digits. |
| ReleaseDates.ReleaseDate | jsonGenerator.js:156-164 | The release date is a real date, and it is 2024-01-01 when the title has no date. With a match, its month name, year and day are the matched word and digits. |
| ReleaseDates.ExtractReleaseDate | jsonGenerator.js:152-165 | The result reads back (as `new Date` does) as the release date, and it is exactly `"2024-01-01"` without a match. |
| ReleaseDates.FallbackIso | jsonGenerator.js:164 | The fallback date prints as `2024-01-01`. |
| ReleaseDates.ExtractOfMatch | jsonGenerator.js:152-165 | For the first match in any title, when it names a real date, the result is the matched year digits, `-`, the two-digit month number, `-`, and the matched day digits with a `0` before a single digit. |
| ReleaseDates.ExtractAtStart | jsonGenerator.js:154-161 | A title that starts with a real English date gets that date's year, month and day digits in ISO form. |
| ReleaseDates.JanuaryFifth | jsonGenerator.js:152-165 | `January 5, 2024` gives `2024-01-05`. |
| ReleaseDates.IsoRoundTrip | jsonGenerator.js:159-161 | Re-reading the `YYYY-MM-DD` text of a valid date gives the date back. |
| ReleaseDates.MonthYearInjective | jsonGenerator.js:29-30 | Two dates share a bucket exactly when they share year and month. |
| ReleaseDates.MonthYearOrderValue | jsonGenerator.js:75-78 | A bucket's `order` is its distance in months back from "now". |
| ReleaseDates.GroupLabelOfMonthYear | jsonGenerator.js:103-104 | A bucket's feed key is its English month name, a space and its year. |
| ReleaseDates.GroupLabelInjective | jsonGenerator.js:102-105 | Buckets with the same feed key are the same bucket. |
| FeedGroups.GroupByMonthGrouped | jsonGenerator.js:71-84 | The `forEach` partitions the items. Bucket names are distinct, and a category exists exactly for the buckets of the items. Each category holds exactly its bucket's videos in scan order. Categories appear in first-seen order. |
| FeedGroups.AddItemGrouped | jsonGenerator.js:72-83 | One `find`-then-push step keeps the partition invariant. |
| FeedGroups.GroupsCoherent | jsonGenerator.js:71-84 | Every category is non-empty, and all its videos have real dates in its bucket. |
| StableSort.SortBy | jsonGenerator.js:87 | The sort is a permutation ordered by the key. |
| StableSort.SortByStable | jsonGenerator.js:91 | Elements with equal keys keep their order (stability). |
| StableSort.StableSortUnique | jsonGenerator.js:87-92 | Any stable sort by the same key gives the same sequence as this one. |
| StableSort.SortByStrict | jsonGenerator.js:87 | Without equal keys the result is strictly ordered. |
| StableSort.SortByShift | jsonGenerator.js:75-87 | Adding one constant to every key does not change the sort. |
| FeedBuilder.DayKeyOrder | jsonGenerator.js:91 | The day key stands in for the time value: it orders valid dates as the calendar does and is equal only for equal dates. |
| FeedBuilder.OrderedCategories | jsonGenerator.js:86-87 | Sorting the categories keeps them all; their orders are pairwise distinct and strictly increasing. |
| FeedBuilder.SortedCategoriesBuckets | jsonGenerator.js:71-87 | The listed groups are exactly the buckets of the items. |
| FeedBuilder.SortedGroup | jsonGenerator.js:89-92 | Sorting a group's videos keeps the same videos, puts later dates first and keeps scan order among equal dates. |
| FeedBuilder.SortedCategoryVideos | jsonGenerator.js:89-92 | Every listed group holds exactly its bucket's videos, latest date first, with videos of the same date in scan order. |
| FeedBuilder.SortedCategoriesRecency | jsonGenerator.js:74-87 | Every video of an earlier group is from a later month than every video of a later group. |
| FeedBuilder.SortedCategoriesIgnoreNow | jsonGenerator.js:75-87 | The clock does not change the groups or their order. |
| FeedBuilder.SetField | jsonGenerator.js:104 | Assigning a key keeps an existing key in its place and appends a new one. |
| FeedBuilder.SetFieldsAppends | jsonGenerator.js:102-105 | Assigning new, pairwise distinct keys appends them in order. |
| FeedBuilder.SortedCategoriesLabels | jsonGenerator.js:102-105 | Each group is labelled with the month name and year of its bucket, and no two groups share a label. |
| FeedBuilder.LabelNotHeaderKey | jsonGenerator.js:95-105 | No group label is a header key. |
| FeedBuilder.FeedShape | jsonGenerator.js:94-105 | The feed object is the three header fields followed by one field per listed group, in order. |
| FeedBuilder.Build | jsonGenerator.js:10-111 | The build is abandoned exactly when `readdir` fails or some entry's promise rejects. |
| FeedBuilder.BuildWritten | jsonGenerator.js:14-107 | Without failures, the build writes the feed of the listing's items, which are well formed and have distinct ids. |
| Paths.VideoPathShape | server.js:46 | Without `..` in the name, the joined path is the root's segments, `Videos` and the name's kept segments. |
| Paths.VideoPathContained | server.js:46 | Without a `..` segment in the name, the resolved path is the video directory or lies below it and continues with the name's segments. |
| Paths.DotDotEscapes | server.js:42-46 | `../<file>` resolves beside the video directory and outside it. |
| Paths.ResolveJoinedSegments | server.js:46 | Normalising the joined path of a name without `..` drops the `.` and empty segments and keeps the others in order. |
| Paths.EscapedOutsideVideoDir | server.js:46 | A file beside the video directory is neither the video directory nor inside it. |
| StreamServer.ContentType | server.js:74-78 | The type is `video/x-matroska` exactly when the lower-cased extension is `.mkv`, and `video/mp4` otherwise. |
| StreamServer.LowerIsMkvExact | server.js:74-76 | The character-by-character extension test holds exactly when `toLowerCase` of the extension is `.mkv`. |
| StreamServer.FeedTypeMatchesContentType | server.js:74-78 | For a bare file name, a video the feed lists as `MKV` is served as `video/x-matroska` and one it lists as `MP4` as `video/mp4`. |
| StreamServer.UpperSpelling | server.js:74-76 | An extension the feed upper-cases to `MKV` passes the Matroska test; one it upper-cases to `MP4` fails it. |
| StreamServer.RangeBounds | server.js:81-82 | The start is the `parseInt` of the text before the first `-` once `bytes=` is removed, and it is never negative. |
| StreamServer.RangeTextBounds | server.js:81-83 | `bytes=a-b` reads back as the bounds `a` and `b`. |
| StreamServer.RangeOpenEnd | server.js:81-83 | `bytes=a-` reads back as the bounds `a` and `fileSize - 1`. |
| StreamServer.RangeNoDash | server.js:81-83 | `bytes=a`, without a dash, reads back as the bounds `a` and `fileSize - 1`. |
| StreamServer.SuffixRangeStart | server.js:81-82 | The start read from the suffix range `bytes=-n` is `NaN`. |
| StreamServer.SuffixRangeResets | server.js:80-92 | A suffix range `bytes=-n` on an existing file gets no answer: the connection is dropped. |
| StreamServer.ReadRange | server.js:91 | A read stream delivers the bytes from `start`, stopping at `end` or at the end of the file. |
| StreamServer.PartialContent | server.js:85-92 | For bounds the read stream accepts, the answer is `206` with four headers and a body of at most `end - start + 1` bytes. |
| StreamServer.PartialContentAccepted | server.js:85-91 | When the stream accepts the bounds, `Content-Length` is the decimal text of `end - start + 1` and the body is what the stream reads. |
| StreamServer.HandleStream | server.js:53-96 | The answer is 404 `Video not found.` exactly when the file is missing. The connection is dropped exactly when the file exists, the `Range` header is non-empty and the read stream rejects its bounds. Any other answer is `206` with a non-empty `Range` header and `200` without one. |
| StreamServer.WholeFile | server.js:93-95 | Without a `Range` header the answer is `200` with the whole file, its size as `Content-Length` and the content type. |
| StreamServer.SatisfiableRange | server.js:80-92 | For `bytes=a-b` with `a <= b < size`: `Content-Range: bytes a-b/size`, `Content-Length: b-a+1`, and exactly bytes `a..b`. |
| StreamServer.FirstHundredBytes | server.js:85-92 | `bytes=0-99` on a 1000-byte file gives 100 bytes announced as `bytes 0-99/1000`. |
| StreamServer.NeverRangeNotSatisfiable | server.js:80-92 | No `Range` header gets `416`. Bounds the read stream accepts get `206`: a start past the end gives no bytes, and an end past the end gives a short body. Bounds it rejects drop the connection. |
| StreamServer.BodyIsSlice | server.js:91-95 | Whatever bytes are sent are a contiguous part of the file. |
| StreamServer.ServesOnlyVideos | server.js:46-95 | Without `..` in the name, the served file lies in the video directory and the body is a part of it. |
| StreamServer.ServesOutsideVideos | server.js:42-46 | Without a guard, `../<file>` serves the file beside the video directory in full. |
| StreamServer.OverlongRangeLength | server.js:83-91 | As written: an end at or past the end of the file is announced unchanged, so `Content-Length` exceeds the bytes sent. |
| StreamServer.ClampEnd | server.js:83 | The corrected end bound keeps the start, never grows the end, stays inside the file and changes nothing when the end is inside. |
| StreamServer.ClampedLengthMatches | server.js:83-91 | With the clamped end, `Content-Length` is the number of bytes sent, and they are the bytes from start to end. |
| StreamServer.BoundsInFile | server.js:85-91 | When the end lies inside the file, `Content-Length` reads back as the number of bytes sent and the body is the bytes from start to end. |
| StreamServer.GetLocalIPAddress | server.js:102-113 | The result is the address of the first non-internal IPv4 entry in iteration order, or `localhost` when there is none. |
| Archive.FoldAscii | generate-archive.js:24 | The `i` flag without `u` folds ASCII letters only, character by character. |
| Archive.CandidateIgnoresCase | generate-archive.js:24 | The test is blind to ASCII case, and every name ending in a lower-case video extension passes. |
| Archive.UpperMovCandidate | generate-archive.js:24 | A `.MOV` name is a ledger candidate but not a feed video. |
| Archive.FeedVideosAreCandidates | generate-archive.js:24 | Every file the feed lists is a ledger candidate; `.MOV` files are candidates the feed skips. |
| Archive.NewEntriesMembers | generate-archive.js:35-41 | A title is new exactly when the ledger lacks it and some candidate has it as stem. |
| Archive.SameStemTwice | generate-archive.js:35-41 | `a.mp4` and `a.mkv` both add `a`: a batch is not de-duplicated. |
| Archive.NewEntriesNone | generate-archive.js:35-41 | Nothing is new when the ledger knows every candidate's title. |
| Archive.AppendText | generate-archive.js:44-45 | The batch is empty exactly when there are no new titles. |
| Archive.Reconcile | generate-archive.js:10-21 | A missing ledger and a failed `readdir` leave the empty ledger. |
| Archive.AppendOnly | generate-archive.js:12-48 | The old text is a prefix of the new. The text changes exactly when `readdir` succeeds and some title is new. |
| Archive.LineSetAround | generate-archive.js:27-30 | A line break splits the set of lines in two. |
| Archive.LineSetJoin | generate-archive.js:27-30 | Joining line-free titles with `\n` and reading the lines back gives exactly those titles. |
| Archive.LineSetAfterAppend | generate-archive.js:27-45 | On a terminated ledger the batch adds exactly its titles as lines and keeps the ledger terminated. |
| Archive.KnownAfterRun | generate-archive.js:27-45 | After a run on a terminated ledger, the lines are the old ones plus the new titles, and no candidate's title is new any more. |
| Archive.Idempotent | generate-archive.js:27-48 | On a ledger that is empty or ends in `\n`, a second run over the same directory appends nothing. |
| Archive.UnterminatedLedgerMergesLines | generate-archive.js:27-45 | As written, on a ledger without a final `\n` the first new title is glued to the last line. |
| Archive.RepairedAppendText | generate-archive.js:44-45 | The corrected batch equals the original one on a terminated ledger. |
| Archive.ReconcileRepaired | generate-archive.js:10-21 | The corrected run also leaves the empty ledger when both the ledger and the listing are missing. |
| Archive.RepairedIdempotent | generate-archive.js:27-48 | With the corrected append, on any ledger, the old text stays a prefix and the lines gain exactly the new titles. A second run appends nothing. |
| JsNumbers.ParseIntOfNatToString | server.js:82-88 | `parseInt` reads back the decimal text of a natural number. |
| JsNumbers.ParseIntWithoutMinus | server.js:82-83 | `parseInt` of text without `-` is never a negative number. |
| JsNumbers.NatToStringInjective | jsonGenerator.js:42 | Different natural numbers have different decimal texts. |
| Strings.SplitAround | generate-archive.js:27 | Splitting `a + sep + b` splits `a` and `b` and puts the pieces together. |
| Strings.JoinSplit | generate-archive.js:27 | Joining the pieces of a split with the separator gives the text back. |
| Strings.SplitJoin | generate-archive.js:27 | Splitting a join of separator-free pieces gives the pieces back. |

## Left out

- **External steps:**
  - `ffprobe` and thumbnail generation are inputs: a whole-second duration, or a failure, and a thumbnail flag.
  - The `Math.floor` of the float duration is not modelled.
  - The thumbnail cache check is not modelled.
- `ReleaseDates.ModelledTitle` restricts the model to titles with no date match, or with a full English month name and a day that exists. Several readings are not described:
  - V8's lenient date parsing (abbreviations, unknown words, day overflow such as "February 30");
  - years below 1000;
  - the `RangeError` that `toISOString` throws on an invalid date.

  `FeedItems.MapEntry` and `FeedBuilder.Build` carry this restriction as a precondition.
- **Host assumptions:** a UTC host with English month names (`toLocaleString`). Time zones and locales are not modelled.
- **The clock is an input:**
  - `order` uses a `Now` value.
  - One timestamp stands for both `dateAdded` and `lastUpdated`, which the program reads separately.
- **Group order:**
  - `FeedGroups.MonthCategory` does not store `order`; `FeedBuilder.OrderKey` recomputes it.
  - A `NaN` order would count as 0. Buckets of real dates never produce one.
- FeedBuilder.SortedCategoriesRecency, FeedBuilder.SortedCategoriesIgnoreNow: the program calls `new Date()` again for each new category (jsonGenerator.js:77), while the model reads the clock once for the whole feed. When a run crosses a month boundary, two groups can get the same `order`, and their order then depends on the sort's tie-breaking. An example is `2024-09` seen in October and `2024-10` seen in November, which both get order 1. The two lemmas state the single-clock behaviour.
- `StreamServer.LowerChar` lower-cases ASCII letters and the Kelvin sign, the only non-ASCII character that lower-cases to a letter of `.mkv`. Other characters are kept as they are.
- `FeedBuilder.DayKey` stands for the millisecond time value in the date comparator. The comparator's sign is all the sort uses.
- **URIs:**
  - `encodeURI` of the thumbnail and stream URLs is omitted (the text is kept as is).
  - `decodeURIComponent` and its `URIError` are omitted: the handler takes the decoded name.
- `ParseIso` accepts exactly the valid `YYYY-MM-DD` dates. Other inputs of `new Date` are not modelled.
- `JsNumbers` reads `parseInt` results as exact integers. Precision loss above 2^53 is not modelled.
- **Files on disk:**
  - They are a map from absolute path to bytes.
  - Directories (which `existsSync` accepts and the read stream rejects) and permission errors are not modelled.
  - The handler's second existence check repeats the first and is modelled once.
- **Express and Node plumbing** is not modelled:
  - the middleware (`helmet`, `cors`), static routes, the `/feed` route and `app.listen`;
  - the headers Express adds to `send`, and `pipe` chunking;
  - `fs-extra` output, dotenv and logging.
- **Dropped connections:** when the read stream rejects the bounds (a `NaN` or negative start or end, or a start after the end), the handler throws after `writeHead`. Express then closes the socket, because the head is already stored. The model returns `Reset` for this and does not model the error log or the socket teardown.
- **Features the program lacks:** a `416` answer and a path-containment guard are not part of the program, so the model shows their absence (`StreamServer.NeverRangeNotSatisfiable`, `StreamServer.ServesOutsideVideos`).
- `Promise.all` is all-or-nothing. The model has no per-file graceful degradation, because the program has none.
- **Line breaks in names:**
  - `Archive.Idempotent` assumes candidate titles without `\n` (`LineLikeTitles`).
  - A name containing a line break would add several ledger lines.
- **Corrected members are separate:** `StreamServer.HandleStream` and `Archive.Reconcile` model the code as written. The corrected `ClampEnd` and `ReconcileRepaired` are separate definitions, so the rest of the model keeps describing the program's actual behaviour.

## Findings

| source | as written | input that shows it | evidently intended | confidence | as-written member | corrected member |
|---|---|---|---|---|---|---|
| server.js:83-91 | `Content-Length` is `end - start + 1` with `end` as sent by the client, but the read stream stops at the end of the file | a 1000-byte file and `Range: bytes=900-1999`: `Content-Length: 1100`, 100 bytes sent | an end at or past the end of the file means the last byte (section 14.1.2 of RFC 9110), so the head announces the bytes actually sent | high; not executed | StreamServer.OverlongRangeLength | StreamServer.ClampedLengthMatches |
| generate-archive.js:27-45 | the batch is appended right after the old text | the ledger `a` (no final line break) and the file `b.mp4` give `ab\n`, whose only line is `ab` | each title on a line of its own, so that a second run appends nothing | medium (the program's own ledgers always end in `\n`); not executed | Archive.UnterminatedLedgerMergesLines | Archive.RepairedIdempotent |
