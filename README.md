# TamilMV auto-poster: crawl, dedup and delivery

A Dafny model of the logic of `bot.py`, a Telegram bot that crawls the
1TamilMV forum every fifteen minutes and posts each new torrent file to a
channel. The model covers three parts:

- **`extract_size`**, the leftmost `\d+(?:\.\d+)?\s*(?:GB|MB|KB)` search in
  an anchor's text (`size.dfy`, module `SizeExtract`). It is a hand-written
  scanner (`MatchAt`, `Search`) proved equal to a declarative definition of
  the regular language (`IsSizeToken`). That proof includes the regex
  engine's backtracking: in `"1.2.3GB"` the match starts at `2`.
- **`crawl_tamilmv`** without its I/O (`crawl.dfy`, module `Crawl`). The
  homepage is the sequence of topic anchors its selector picked out, or
  `None` when the fetch failed. A topic fetch is a function from URL to
  `Option<seq<Anchor>>`. The model covers the order-preserving dedup and
  truncation to 15 topics, URL resolution, file records, listings and the
  omission of failed topics. `Crawl.Crawl` is the imperative loop, proved
  equal to the specification `CrawlSpec`.
- **`MN_Bot`'s ledger and the delivery pass of `auto_post_torrents`**
  (`autopost.dfy`, module `AutoPost`). The class `Bot` holds
  `postedLinks` and `seenTopics`. It also keeps ghost state: the log of
  attempted sends (`sent`) and the number of 3-second pauses
  (`pauses`). Fetching a file and sending it is one oracle answer:
  `ok(n)` is the outcome of the `n`-th attempt of the cycle. The pure
  specification is `Step` (one listing) and `Cycle` (one pass).
  `Bot.PostListings` is proved to follow them.

`text.dfy` holds the Python string operations the code relies on
(`str.isspace`, `strip`, `startswith`, `replace`) and the `Option` type.

### Behaviour of the code that a reader might not expect

- A file title keeps the size text. One might expect
  "www.1TamilMV Movie.Name.2024.torrent 1.2GB" to give the title
  "Movie.Name.2024". The code only removes `www.1TamilMV` and `.torrent`
  and strips, so the title is "Movie.Name.2024 1.2GB".
  `Crawl.TitleKeepsSize` states this whenever `www.1TamilMV` occurs
  only at the front, the suffix is the first `.torrent` after the name,
  and the size text holds no `.torrent`.
- Dedup runs on the raw hrefs, before URL resolution. A relative and an
  absolute href of the same topic are both visited
  (`Crawl.ResolvedTopicsMayRepeat`).
- `new_files` is computed once per listing. A link that appears twice on
  one topic page is sent twice in the same pass
  (`AutoPost.DuplicateLinkSentTwice`).
- A topic whose fetch fails, or whose page has no file, yields no listing.
  So it is not added to `seen_topics` either, and a later cycle visits it
  again (`AutoPost.CycleTopicSeen`).

## Model

| member | source | states |
|---|---|---|
| SizeExtract.ExtractSizeIsLeftmostMatch | bot.py:35-37 | the result is "Unknown" exactly when no substring matches the pattern; otherwise it is a match, and no match starts further left |
| SizeExtract.ExtractSizeShape | bot.py:35-37 | a size other than "Unknown" occurs in the text, starts with a digit and ends with GB, MB or KB in either case |
| SizeExtract.MatchAtSound | bot.py:36 | what the scanner finds from a start position is a match of the regular language |
| SizeExtract.MatchAtComplete | bot.py:36 | every match from a start position is the one the scanner finds there, so each start has at most one match and backtracking never finds another |
| SizeExtract.SearchFound | bot.py:36 | a search result is a successful start and no earlier start succeeds |
| SizeExtract.SearchNotFound | bot.py:36-37 | a failed search means no start position from there on succeeds |
| SizeExtract.LeftmostMatchSkipsFailedStart | bot.py:36-37 | `"1.2.3GB"` yields `"2.3GB"`: the attempt at `1` fails and the match starts at `2` |
| SizeExtract.SkipDigits | bot.py:36 | greedy `\d+`: the run found is all digits and is followed by a non-digit or the end |
| SizeExtract.SkipSpace | bot.py:36 | greedy `\s*`: the run found is all whitespace and is followed by a non-space or the end |
| Text.StripIsTrimmedSlice | bot.py:71 | `strip()` keeps a slice of its input with only whitespace outside it, and that slice neither starts nor ends with whitespace |
| Text.ReplaceAllFirst | bot.py:71 | `replace` keeps everything before the leftmost occurrence, replaces it and carries on after it |
| Text.ReplaceAllNoOccurrence | bot.py:71 | `replace` without an occurrence changes nothing |
| Text.ReplaceCharRemovesIt | bot.py:132 | replacing a character by a text without it leaves no copy of it |
| Text.RemovalCanRecreatePattern | bot.py:71 | removing every occurrence of a pattern can leave an occurrence behind |
| Crawl.TopicHrefs | bot.py:50-53 | the topic hrefs are exactly the non-empty hrefs of the homepage anchors |
| Crawl.TopicHrefsConcat | bot.py:50-53 | the hrefs keep anchor order: those of a concatenation of anchor runs are those of each run, in turn |
| Crawl.Dedup | bot.py:55 | `dict.fromkeys`: no duplicates, the same elements, in first-occurrence order |
| Crawl.Take | bot.py:55 | `[:n]` is the prefix of length exactly min(n, length), so the first n elements when the sequence is longer |
| Crawl.TopicListFacts | bot.py:50-55 | the visited topics have no duplicates, are at most 15, keep first-occurrence order, each come from a non-empty href, and are the first min(15, number of distinct hrefs) of the deduplicated hrefs |
| Crawl.TopicListComplete | bot.py:50-55 | with at most 15 distinct hrefs, an href is visited exactly when some homepage anchor has it |
| Crawl.ResolveUrl | bot.py:57 | a resolved URL starts with "http"; an href starting with "http" is kept, any other gets the base URL in front |
| Crawl.ResolveUrlIdempotent | bot.py:57 | resolving twice is resolving once |
| Crawl.ResolvedTopicsMayRepeat | bot.py:55-57 | two distinct hrefs can resolve to the same topic URL, because dedup comes before resolution |
| Crawl.Hrefs | bot.py:65-68 | the anchors kept are exactly those with a non-empty href |
| Crawl.TitleKeepsSize | bot.py:71 | for "www.1TamilMV " + name + ".torrent " + size, where the tag occurs nowhere after the front, no `.torrent` starts inside the name and none occurs in " " + size, the title is name + " " + size stripped: only the tag and the suffix are removed |
| Crawl.TitleMayKeepSuffix | bot.py:71 | the title of ".tor.torrentrent" is ".torrent": removing the suffix can produce a new one |
| Crawl.MakeFileFacts | bot.py:70-78 | a file's link is its href with only the whitespace at both ends dropped; its title has no whitespace at either end |
| Crawl.FilesOfSnoc | bot.py:65-78 | one more anchor adds its file when it has an href and nothing otherwise |
| Crawl.FilesOfConcat | bot.py:65-78 | files keep anchor order: the files of a concatenation are the files of each part in turn |
| Crawl.FilesOfNonEmpty | bot.py:65-80 | a page has a file exactly when one of its anchors has an href |
| Crawl.FilesOfFirst | bot.py:65-84 | the first file comes from the first anchor that has an href |
| Crawl.FilesOfFromAnchors | bot.py:65-78 | every file is the record of an anchor of the page that has an href |
| Crawl.ListingOfFacts | bot.py:80-86 | a listing exists exactly when some anchor has an href; it holds all the page's files, at least one, and its title and size are the first file's |
| Crawl.TopicListingSound | bot.py:57-86 | a topic with a listing was fetched at its resolved URL, and the listing is that page's |
| Crawl.ListingsOfConcat | bot.py:55-89 | topics are independent: the listings of a concatenation are the listings of each part in turn |
| Crawl.FailedTopicOmitted | bot.py:88-89 | a topic whose fetch fails is dropped and the topics around it are still processed |
| Crawl.HomepageFailureYieldsNothing | bot.py:91-94 | a failed homepage fetch yields no listing |
| Crawl.ListingsOfSound | bot.py:55-89 | every listing is the listing of one of the visited topics |
| Crawl.ListingsOfComplete | bot.py:55-89 | every visited topic whose fetch succeeds with a file contributes its listing |
| Crawl.CrawlFacts | bot.py:40-94 | at most 15 listings; each has files, the first file's title and size, and exactly the files of its fetched page |
| Crawl.CrawlTopicIncluded | bot.py:50-94 | a URL has a listing exactly when some visited href resolves to it, its fetch succeeds and the page has a file |
| Crawl.Crawl | bot.py:40-94 | the imperative crawl returns exactly the specified listings |
| Crawl.VisitTopic | bot.py:56-89 | one topic: resolve, fetch and parse, giving that topic's specified listing or nothing |
| Crawl.ParseFiles | bot.py:63-78 | the loop over a page's anchors yields exactly the page's files |
| AutoPost.FileNameShape | bot.py:132 | the file name has no space and ends with ".torrent" |
| AutoPost.FileNameOfSpacelessTitle | bot.py:132 | a title without spaces is kept verbatim in front of ".torrent" |
| AutoPost.CaptionRoundTrip | bot.py:133-137 | title and size can be read back from the caption when neither holds a line break |
| AutoPost.NewFiles | bot.py:120 | the new files are exactly the listing's files whose link has not been posted |
| AutoPost.NewFilesConcat | bot.py:120 | the filter keeps file order: it works file by file |
| AutoPost.DeliveredLinksMembers | bot.py:146 | a link is recorded as delivered exactly when some send of it succeeded |
| AutoPost.StepSkip | bot.py:122-123 | a seen topic with no new file is skipped: no attempt, and both sets stay as they were |
| AutoPost.StepNotSkipped | bot.py:125-153 | otherwise exactly the new files are attempted, in order, with the oracle's outcomes; the topic is marked seen whatever the outcomes, and only delivered links are added |
| AutoPost.StepAttemptsAreNew | bot.py:120-125 | every attempt is for a file of the listing whose link had not been posted |
| AutoPost.StepCovers | bot.py:125-153 | when all of a listing's sends succeed, its topic and all its links end up in the ledger, and nothing is lost |
| AutoPost.CycleGrows | bot.py:118-153 | neither set loses an element during a pass |
| AutoPost.CyclePosted | bot.py:139-151 | the posted links after a pass are those before it plus the links of its successful sends |
| AutoPost.CyclePostedMembers | bot.py:139-151 | a link is posted after a pass exactly when it was before or one of its sends succeeded; a failed send adds nothing |
| AutoPost.CycleSeen | bot.py:118-153 | the seen topics after a pass are those before it plus the topics of the pass's listings |
| AutoPost.CycleLogShape | bot.py:132-144 | every attempt of a pass carries the file name and caption built from its file |
| AutoPost.CycleCovers | bot.py:118-153 | when every send succeeded, the ledger afterwards holds every topic and link of the listings |
| AutoPost.CycleOfCovered | bot.py:118-153 | a pass over listings all of whose topics and links are already held attempts nothing and changes nothing |
| AutoPost.CycleIdempotent | bot.py:118-153 | when every send of a pass succeeded, repeating the pass on the same listings attempts nothing and changes nothing, whatever the oracle |
| AutoPost.CycleTopicSeen | bot.py:55-153 | after a pass, a previously unseen topic is seen exactly when some visited href resolves to it and its page was fetched with a file |
| AutoPost.TopicsOfMembers | bot.py:119 | a topic is among a pass's topics exactly when one of its listings has it |
| AutoPost.HomepageFailureCycle | bot.py:91-94 | a homepage failure makes the pass a no-op |
| AutoPost.DuplicateLinkSentTwice | bot.py:120-125 | a link listed twice on one page is attempted twice in the same pass |
| AutoPost.Bot.constructor | bot.py:110-111 | a new bot has posted nothing and seen nothing |
| AutoPost.Bot.PostListings | bot.py:118-153 | the pass leaves the ledger the specified pass gives, logs its attempts, and pauses once per successful send |
| AutoPost.Bot.PostListing | bot.py:119-153 | one listing changes the ledger and the log as the specified step does |
| AutoPost.Bot.SendFiles | bot.py:125-153 | the loop over a listing's new files attempts each in order, records exactly the delivered links and leaves the seen topics alone |
| AutoPost.Bot.SendFile | bot.py:126-151 | a success records the link and one pause; a failure records only the attempt |
| AutoPost.Bot.RunCycle | bot.py:115-153 | a cycle is the specified pass over the specified crawl |

`Bot.Valid` is kept by every method. It says that the posted links are
exactly the links of the successful sends in the log, and that the
pauses are exactly those successes counted.

## Left out

- HTTP through cloudscraper (the homepage, the topic pages and the file
  downloads). Its results are inputs: `home`, `fetch` and the oracle `ok`.
  A download and the upload that follows are one oracle answer.
- BeautifulSoup parsing and the CSS selectors. A page is the sequence of
  anchors its selector picked out. `get_text(strip=True)` is taken as the
  anchor's text with one `strip()`, not BeautifulSoup's per-string
  stripping and joining.
- pyrogram (`send_document`, `send_message`, `start`, `stop`, `get_me`),
  the Flask health check and the threading entry point. These are I/O and
  concurrency around the modelled state.
- `asyncio.sleep` and the `while True` loop. One cycle is one call of
  `Bot.RunCycle`. The 3-second pause after a send is counted in `pauses`,
  and the 15-minute wait between cycles is not modelled.
- Logging, and the catch-all exception handler around a cycle. In the
  model a cycle never fails as a whole.
- Configuration (`config.BOT`, `API`, `OWNER`, `CHANNEL`), the channel ID
  and `MAX_MSG_LENGTH`, which is never used.
- The oracle is indexed by attempt number within the cycle. Which
  exception made a send fail is not modelled.
- SizeExtract.IsDigit: `\d` is taken as the ASCII digits, a subset of
  what a Python `str` pattern accepts (every Unicode decimal digit).
- Crawl.TopicListing: a topic fetch is a function of the resolved URL.
  So two visits of the same URL in one crawl (a relative and an absolute
  href of one topic, see `Crawl.ResolvedTopicsMayRepeat`) see the same
  outcome, whereas the code fetches again on each visit, and a first
  visit could fail where the second succeeds. The "exactly when the fetch
  succeeds" parts of `Crawl.CrawlFacts`, `Crawl.CrawlTopicIncluded` and
  `AutoPost.CycleTopicSeen` rest on this.
- Crawl.Title: there is no lemma saying which substrings the title lacks,
  because a replace-all can recreate the pattern it removed
  (`Text.RemovalCanRecreatePattern`; for titles, `Crawl.TitleMayKeepSuffix`:
  ".tor.torrentrent" gives the title ".torrent").
