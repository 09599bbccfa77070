# Tweet build script: thread selection, publishing and the sent-tweets ledger

A NUKE build script publishes tweet threads. The threads are stored as
markdown files in a `tweets` directory. The script keeps a ledger
(`tweets.csv`, loaded into `List<SentTweet> SentTweets`) of everything it has
sent. Its targets are:

- `LoadTweets` reads the ledger.
- `UpdateTweets` fetches the favourite, retweet and reply counts of every
  record that has no favourite count yet.
- `Tweet` picks the next thread and publishes it:
  - It takes a base name from the `TweetBaseName` parameter, or computes one
    from the directory and the ledger.
  - It collects the batch of `{baseName}*.md` files in ascending order.
  - For each file it uploads the file's media, publishes the text as a reply
    to the ledger's first record, and appends a new record.
- `SaveTweets` appends a placeholder record and writes the ledger back.

The model has six modules:

| module | contents |
|---|---|
| `Wrappers` | `Option`, `Result` and the `Failure`s that stop a target |
| `Text` | the `\d+.*` replacement, prefix and suffix tests, the case-insensitive suffix test, file stems, ordinal string order |
| `Sorting` | the `OrderBy` sorts as an insertion sort: sortedness, permutation and independence from input order |
| `Ledger` | the `SentTweet` record, `FindIndex`, the reply target, and the metrics refresh as a function of the ledger and of what the network returns |
| `Selection` | base-name selection and batch gathering, as pure functions over the directory listing and the ledger |
| `Build` | the media, request and publish rules, and the class `Build` |

The class `Build` holds the ledger as a `seq<SentTweet>` field. Its methods
`LoadTweets`, `UpdateTweets`, `Tweet`/`PublishFiles` and `SaveTweets` update
that field. `LoadTweets` and `SaveTweets` are single assignments whose
contracts give the new ledger directly. `UpdateTweets` and `PublishFiles`
are loops, proved equal to the functions `Ledger.Refresh` and
`Build.Publish`, and `Tweet` delegates to `PublishFiles` once a base name is
chosen.

The outside world is given as values:

- the directory is the list of its file names, in the order the glob
  enumerates them;
- reading a file's text is a function;
- the metrics fetch, the media upload and the publish call are functions
  that return `None` when the call fails;
- the clock is a function of the number of records in the ledger at the
  moment of the send.

## Behaviour worth knowing

- **Never-sent threads come first.** `FindIndex` returns -1 for a name that
  is not in the ledger (build/Build.cs:98). So every never-sent candidate
  sorts before every sent one (`Selection.OrderedCandidates`,
  `Selection.NeverSentChosenFirst`).
- **Replies go to the oldest record.** The reply target is
  `SentTweets.FirstOrDefault()?.Id` (build/Build.cs:133). New records are
  appended at the end, so this is the oldest record. Once the ledger is
  non-empty, every send of a batch replies to that same record
  (`Build.PublishReplies`).
- **`\d+.*` deletes a digit run and the rest of its line** (build/Build.cs:100).
  `.` does not match a line feed, and every match is replaced. For a name
  without a line feed the result is the prefix before the first digit
  (`Text.StripNumbering`).
- **The media globs match by prefix** (build/Build.cs:121). For `topicA1`,
  `{tweetName}*.png` and its siblings also collect `topicA10.png`
  (`Build.MediaFiles`).
- **A three-file example.** The directory holds `topicA1.md`, `topicA2.md`
  and `topicB1.md`, and the ledger holds one record, `topicA1`. The unsent
  `topicA2` sorts first, so the base name is `topicA`, and the batch is
  `topicA1.md` followed by `topicA2.md` (`Selection.ExampleOrder`,
  `Selection.ExampleBaseName`, `Selection.ExampleBatch`).
- **A line feed in a name can leave the batch empty.** The base name keeps
  whatever follows a line feed after the numbering, so it need not be a
  prefix of the candidate. For `a1\nb.md` alone in the directory, the base
  name is `a\nb`, no file starts with it, nothing is published, and the next
  run picks the same candidate again (`Selection.LineFeedEmptyBatch`).

## Model

| member | source | states |
|---|---|---|
| Ledger.FindIndex | build/Build.cs:98 | the sort key is the index of the first record with exactly that name, -1 exactly when no record has it |
| Text.StripNumbering | build/Build.cs:100 | the replacement never lengthens the name and leaves no digit; a name without digits is unchanged; a one-line name is cut right before its first digit |
| Text.Stem | build/Build.cs:97 | `GetFileNameWithoutExtension` cuts the name right before its last dot, and keeps the whole name when it has no dot |
| Text.StemOfMd | build/Build.cs:97 | the stem of an `.md` file is its name without the last three characters |
| Text.OrdinalLeTotal | build/Build.cs:99 | any two names are comparable in the name order |
| Text.OrdinalLeTransitive | build/Build.cs:99 | the name order is transitive |
| Text.OrdinalLeAntisymmetric | build/Build.cs:99 | two names that sort no later than each other are equal |
| Sorting.Insert | build/Build.cs:98-99 | inserting adds exactly the element: the multiset grows by it |
| Sorting.Sort | build/Build.cs:98-99 | `OrderBy` returns a permutation of its input |
| Sorting.InsertSorted | build/Build.cs:98-99 | inserting into a sorted sequence keeps it sorted under a total preorder |
| Sorting.SortSorted | build/Build.cs:98-99 | `OrderBy` under a total preorder returns a sorted sequence |
| Sorting.SortedHeadFirst | build/Build.cs:100 | the first element of a sorted sequence sorts no later than any of its elements |
| Sorting.SortedSameHead | build/Build.cs:98-99 | helper of SortedUnique: two sorted permutations of each other start with the same element |
| Sorting.SortedUnique | build/Build.cs:98-99 | two sorted permutations of each other are equal under an antisymmetric total preorder |
| Sorting.SortOrderIndependent | build/Build.cs:98-99 | the sort result depends only on the multiset of its input |
| Sorting.SortedDistinct | build/Build.cs:114 | a sorted sequence without repeats is strictly ascending |
| Selection.MdStems | build/Build.cs:95-97 | definition: the stems of the listed `.md` files, in listing order (its properties are MdStemsMatch and MdStemsCount) |
| Selection.MdStemsMatch | build/Build.cs:95-97 | the candidates are exactly the names whose `.md` file is listed; there are none exactly when no `.md` file is listed |
| Selection.MdStemsCount | build/Build.cs:95-97 | each candidate occurs as often as its `.md` file is listed |
| Selection.CandidateLe | build/Build.cs:98-99 | definition: the `OrderBy(FindIndex)` key first, then `ThenBy` the name |
| Selection.OrdinalOrderIsTotal | build/Build.cs:114 | the name order is a total, antisymmetric preorder |
| Selection.CandidateOrderIsTotal | build/Build.cs:98-99 | rank-then-name is a total, antisymmetric preorder |
| Selection.OrderedCandidates | build/Build.cs:95-99 | the ordered candidates are a permutation of the `.md` stems; a sent candidate is never followed by a never-sent one; ranks never decrease; equal ranks are in name order |
| Selection.GetTweetBaseName | build/Build.cs:93-101 | selection fails with `NoCandidates` exactly when no `.md` file is listed; otherwise the name has no digit and is the numbering-stripped form of a candidate that sorts no later than every other candidate |
| Selection.FirstCandidateMinimal | build/Build.cs:95-100 | a first candidate exists exactly when a `.md` stem does, and it sorts no later than every candidate |
| Selection.SelectBaseName | build/Build.cs:110 | a supplied base name is used verbatim; only without one is the computed name used |
| Selection.MatchesTweetGlob | build/Build.cs:112 | definition: the glob `{baseName}*.md` as a prefix and suffix test |
| Selection.Matching | build/Build.cs:111-112 | the glob keeps every listed `{baseName}*.md` file, each as often as it is listed, and nothing else |
| Selection.TweetFiles | build/Build.cs:111-114 | the batch holds exactly the listed files that start with the base name and end in `.md`, each as often as listed, in ascending order |
| Selection.TweetFilesDistinct | build/Build.cs:111-114 | when the directory lists each name once, the batch has no duplicates |
| Selection.CandidatesIgnoreListingOrder | build/Build.cs:95-99 | the candidate order does not depend on the glob's enumeration order |
| Selection.BatchIgnoresListingOrder | build/Build.cs:111-114 | the batch does not depend on the glob's enumeration order |
| Selection.SelectionIgnoresListingOrder | build/Build.cs:95-114 | the candidate order, the base name and the batch do not depend on the glob's enumeration order |
| Selection.BatchHoldsFirstCandidate | build/Build.cs:100-112 | for a first candidate without a line feed, the computed base name selects a batch that holds that candidate's own file |
| Selection.LineFeedEmptyBatch | build/Build.cs:100-112 | a first candidate `a1\nb` gives the base name `a\nb`, whose batch is empty |
| Selection.NeverSentChosenFirst | build/Build.cs:98-100 | if any listed candidate was never sent, the chosen candidate was never sent |
| Text.OrdinalLeAtDifference | build/Build.cs:99 | the name order is decided by the first differing character |
| Selection.ExampleOrder | build/Build.cs:95-99 | with `topicA1` sent, the order is `topicA2`, `topicB1`, `topicA1` |
| Sorting.SortThree | build/Build.cs:98-99 | helper of Selection.ExampleOrder: an element that sorts after two ordered others ends up last |
| Sorting.SortTwo | build/Build.cs:114 | helper of Selection.ExampleBatch: two ordered elements stay in order |
| Selection.ExampleMatching | build/Build.cs:111-112 | the `topicA` glob keeps `topicA1.md` and `topicA2.md` and drops `topicB1.md` |
| Selection.ExampleStrip | build/Build.cs:100 | `topicA2` loses its numbering to `topicA` |
| Selection.ExampleBaseName | build/Build.cs:93-101 | the example directory gives the base name `topicA` |
| Selection.ExampleBatch | build/Build.cs:111-114 | the `topicA` batch is `topicA1.md`, `topicA2.md`, in that order |
| Ledger.SentTweet | build/Build.cs:180-189 | definition: the ledger record with name, date, url, id and three optional counts |
| Ledger.ReplyTarget | build/Build.cs:133 | no reply target exactly when the ledger is empty, otherwise the id of its first record |
| Ledger.ReplyTargetStable | build/Build.cs:133 | appending records does not change the reply target of a non-empty ledger |
| Ledger.NeedsRefresh | build/Build.cs:72 | definition: only a missing favourite count selects a record for a fetch |
| Ledger.WithCounts | build/Build.cs:76-78 | definition: the record with its three counts overwritten by the fetched ones |
| Ledger.RefreshOne | build/Build.cs:72-78 | definition: what one visit of the loop leaves in a record |
| Ledger.FetchFailureAt | build/Build.cs:72-79 | the refresh stops at the first record that needs a fetch and whose fetch fails |
| Ledger.RefreshPrefix | build/Build.cs:72-79 | definition: the ledger after the loop visited its first n records (its length is kept) |
| Ledger.Refresh | build/Build.cs:72-79 | definition: the ledger after `UpdateTweets`, refreshed up to the first failing fetch (properties in the Refresh lemmas) |
| Ledger.RefreshComplete | build/Build.cs:72-79 | after a refresh without failures every record has a favourite count; records that had one are unchanged whatever their other counts; the others carry the fetched counts; names, ids, urls, dates, length and order are kept |
| Ledger.RefreshAborted | build/Build.cs:72-79 | a failing fetch leaves its record and all later ones untouched, and every earlier record has a favourite count |
| Ledger.RefreshChangesOnlyUncounted | build/Build.cs:72-79 | with or without a failing fetch: records that had a favourite count are untouched, records before the failure point that lacked one carry the counts fetched for their id, and names, ids, urls, dates and length are kept |
| Ledger.RefreshIdempotent | build/Build.cs:72-79 | refreshing again after a complete refresh changes nothing |
| Ledger.NothingToFetch | build/Build.cs:72 | a ledger where every record has a favourite count needs no fetch and is left as it is |
| Build.IsMediaFile | build/Build.cs:121 | definition: one of the four globs `{tweetName}*.png`, `.jpeg`, `.jpg`, `.gif` matches |
| Build.MediaFiles | build/Build.cs:120-121 | definition: the media files of a tweet in listing order (property in MediaFilesMatch) |
| Build.MediaFilesMatch | build/Build.cs:120-121 | the media of a tweet are exactly the listed files that start with its name and end in `.png`, `.jpeg`, `.jpg` or `.gif` |
| Build.Category | build/Build.cs:125-127 | definition: Gif when the name ends in "gif" ignoring case, otherwise Image |
| Build.CategoryOfMediaFile | build/Build.cs:125-127 | a media file is uploaded as Gif exactly when its name ends in `.gif`, otherwise as Image |
| Build.CategoryByExtension | build/Build.cs:125-127 | a name ending in one of the four media extensions is Gif exactly when that extension is `.gif` |
| Build.UploadAll | build/Build.cs:120-129 | definition: the uploads one after the other, the first failure aborting (properties in UploadAllResult) |
| Build.UploadAllResult | build/Build.cs:120-129 | the uploads succeed exactly when each one does; the media ids are then the returned ones in file order; otherwise the failure names the first file whose upload failed |
| Build.TweetRequest | build/Build.cs:119-136 | a request exists exactly when all the tweet's media uploads succeed; it then carries the given reply target, the file's text and the uploaded media ids in file order; otherwise it fails with the upload failure |
| Build.NewRecord | build/Build.cs:140-146 | definition: the appended record with the file's stem, the clock time, the returned url and id, and absent counts |
| Build.Publish | build/Build.cs:116-147 | definition: the publish loop as a function of the ledger, the batch and the services (properties in the Publish lemmas) |
| Build.PublishLength | build/Build.cs:116-147 | one request per appended record; the loop ends early only on a failure |
| Build.PublishFirst | build/Build.cs:116-146 | helper of PublishStep, one unfolding of Publish: a loop that appended anything sent its first file and went on from the ledger with that record added |
| Build.PrefixAfterFirst | build/Build.cs:140 | helper of PublishStep: the ledger after j appends, seen from the ledger after the first one |
| Build.PublishStep | build/Build.cs:116-146 | the j-th send's request is prepared for the j-th file with the reply target of the ledger after j appends, and the j-th record holds what that publish returned |
| Build.PublishAppends | build/Build.cs:116-146 | publishing n files appends n records unless a failure stops the loop, in batch order, each with its file's name, the returned id and url, and absent counts |
| Build.PublishReplies | build/Build.cs:131-136 | each send replies to ledger element 0, none only while the ledger is empty; if the ledger was non-empty, every send replies to its original first record; each request carries its file's text and the ids of all its media, whose uploads all succeeded |
| Build.Placeholder | build/Build.cs:160 | definition: the placeholder record `foo`, id 123, url `moooo` |
| Build.Build.constructor | build/Build.cs:46 | the ledger starts empty |
| Build.Build.LoadTweets | build/Build.cs:54 | the ledger becomes the records read |
| Build.Build.UpdateTweets | build/Build.cs:72-79 | the loop leaves the ledger as `Refresh` of the old one and reports the first failing fetch |
| Build.Build.Tweet | build/Build.cs:110-147 | if no base name can be chosen nothing changes; otherwise the ledger is the old ledger plus what publishing the batch appends |
| Build.Build.PublishFiles | build/Build.cs:116-147 | the loop's requests, failure and appended records are those of `Publish` on the old ledger; earlier records are untouched |
| Build.Build.SaveTweets | build/Build.cs:160 | the placeholder record `foo`/123/`moooo` is appended whatever the ledger holds |

## Left out

- Twitter client calls (`GetTweetAsync`, `UploadTweetImageAsync`, `PublishTweetAsync`): network calls, given as functions from request to optional result; a call is assumed to answer the same way for the same argument.
- async/await and `.Result` blocking: the uploads and sends are modelled as sequential.
- CsvHelper reading and writing and `SentTweetMap`: the serialiser's encoding is not part of this model. Only the column order is kept (`Ledger.Columns`), and `LoadTweets` takes the parsed records as its argument.
- `SaveTweets`: the CSV write after the append is not modelled.
- The `Commit` target, git and the GitHub Actions configuration: external processes.
- The credential `Requires` checks and logging (`Info`): not behavioural.
- `DateTime.Now`: a clock function of the ledger length.
- `ReadAllText` and `ReadAllBytes`: file contents are a function of the file name, and uploaded media are named by file.
- The culture-sensitive comparer of `OrderBy(x => x)`: the model uses ordinal character order.
- Full paths: the batch is sorted by full path in the source and by file name here, which agrees because all files share the directory prefix.
- Text.StripNumbering: `\d` is ASCII digits only. The prefix property is stated for names without a line feed; for other names the per-line deletion is in the definition.
- Build.Category: ignore-case comparison folds ASCII letters only.
- Glob details: metacharacters inside a base name and file-system case sensitivity are not modelled. For the multi-pattern media glob, the model uses the order of the listing.
- Integer widths: the `long` id and `int?` counts are unbounded integers.
- Record mutation in place: `UpdateTweets` replaces the ledger element. No record object is shared elsewhere in the source, so there is no aliasing to capture.
