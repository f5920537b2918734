// The dedup ledger of `MN_Bot` (bot.py:110-111) and one pass of the loop
// in `auto_post_torrents` (bot.py:116-153). Fetching a file and sending
// it to the channel is one oracle answer: `ok(n)` says whether the `n`-th
// such attempt of the cycle succeeded.

module AutoPost {
  import opened Wrappers
  import opened Text
  import opened Crawl

  const ChannelTag: string := "#TamilMV"
  const SizeMark: string := "\U{1F4E6} "

  // ---- What one send carries (bot.py:132-137) ----

  /** `title.replace(" ", "_") + ".torrent"` */
  function FileName(title: string): string {
    ReplaceAll(title, " ", "_") + TorrentSuffix
  }

  /** A file name has no space and ends in `.torrent`. */
  lemma FileNameShape(title: string)
    ensures ' ' !in FileName(title) && EndsWith(FileName(title), TorrentSuffix)
  {
    var base := ReplaceAll(title, " ", "_");
    ReplaceCharRemovesIt(title, ' ', "_");
    assert (base + TorrentSuffix)[|base|..] == TorrentSuffix;
  }

  /** A title without spaces is kept as it is. */
  lemma FileNameOfSpacelessTitle(title: string)
    requires ' ' !in title
    ensures FileName(title) == title + TorrentSuffix
  {
    forall i: nat | i < |title| ensures !OccursAt(title, " ", i) {
      assert title[i..i + 1] == [title[i]];
    }
    ReplaceAllNoOccurrence(title, " ", "_");
  }

  /** The caption: the title, the size after a package sign, the tag. */
  function Caption(f: FileRecord): string {
    f.title + "\n" + SizeMark + f.size + "\n" + ChannelTag
  }

  /** Index of the first line break, or the length when there is none. */
  function LineEnd(s: string): (i: nat)
    ensures i <= |s| && '\n' !in s[..i] && (i == |s| || s[i] == '\n')
  {
    if s == [] || s[0] == '\n' then 0
    else
      var i := 1 + LineEnd(s[1..]);
      assert s[..i] == [s[0]] + s[1..][..i - 1];
      i
  }

  lemma LineEndOf(a: string, b: string)
    requires '\n' !in a
    ensures LineEnd(a + "\n" + b) == |a|
  {
    var s := a + "\n" + b;
    var i := LineEnd(s);
    assert s[|a|] == '\n';
  }

  /** Reads title and size back from a caption. */
  function ParseCaption(c: string): Option<(string, string)> {
    var i := LineEnd(c);
    if i == |c| then None
    else
      var rest := c[i + 1..];
      var j := LineEnd(rest);
      if j == |rest| then None
      else
        var line := rest[..j];
        if StartsWith(line, SizeMark) && rest[j + 1..] == ChannelTag
        then Some((c[..i], line[|SizeMark|..]))
        else None
  }

  /** The caption keeps title and size apart: both can be read back when
      neither holds a line break. */
  lemma CaptionRoundTrip(f: FileRecord)
    requires '\n' !in f.title && '\n' !in f.size
    ensures ParseCaption(Caption(f)) == Some((f.title, f.size))
  {
    var c := Caption(f);
    var tail := SizeMark + f.size + "\n" + ChannelTag;
    assert c == f.title + "\n" + tail;
    LineEndOf(f.title, tail);
    assert c[|f.title| + 1..] == tail;
    assert '\n' !in SizeMark + f.size;
    LineEndOf(SizeMark + f.size, ChannelTag);
    assert tail[..|SizeMark + f.size|] == SizeMark + f.size;
    assert c[..|f.title|] == f.title;
  }

  // ---- The ledger and the send log ----

  /** One attempt to fetch a file and send it to the channel. */
  datatype Attempt = Attempt(file: FileRecord, fileName: string, caption: string, delivered: bool)

  function MakeAttempt(f: FileRecord, delivered: bool): Attempt {
    Attempt(f, FileName(f.title), Caption(f), delivered)
  }

  /** An attempt sends its file under FileName of its title, with
      Caption of the file. */
  predicate WellFormed(a: Attempt) {
    a.fileName == FileName(a.file.title) && a.caption == Caption(a.file)
  }

  /** The links whose send succeeded. */
  function DeliveredLinks(log: seq<Attempt>): set<string> {
    if log == [] then {}
    else
      var last := log[|log| - 1];
      DeliveredLinks(log[..|log| - 1]) + (if last.delivered then {last.file.link} else {})
  }

  /** The number of sends that succeeded. */
  function Delivered(log: seq<Attempt>): (n: nat)
    ensures n <= |log|
  {
    if log == [] then 0
    else Delivered(log[..|log| - 1]) + (if log[|log| - 1].delivered then 1 else 0)
  }

  lemma {:induction false} DeliveredLinksMembers(log: seq<Attempt>, x: string)
    ensures x in DeliveredLinks(log) <==> exists a :: a in log && a.delivered && a.file.link == x
    decreases |log|
  {
    if log != [] {
      var init := log[..|log| - 1];
      DeliveredLinksMembers(init, x);
      assert log == init + [log[|log| - 1]];
      if a :| a in log && a.delivered && a.file.link == x {
        if a in init {} else { assert a == log[|log| - 1]; }
      }
    }
  }

  lemma {:induction false} DeliveredConcat(a: seq<Attempt>, b: seq<Attempt>)
    ensures DeliveredLinks(a + b) == DeliveredLinks(a) + DeliveredLinks(b)
    ensures Delivered(a + b) == Delivered(a) + Delivered(b)
    decreases |b|
  {
    if b == [] {
      assert a + b == a;
    } else {
      var n := |b| - 1;
      assert (a + b)[..|a + b| - 1] == a + b[..n];
      DeliveredConcat(a, b[..n]);
    }
  }

  /** Every send succeeded. */
  predicate AllDelivered(log: seq<Attempt>) {
    forall a :: a in log ==> a.delivered
  }

  /** The sets the bot keeps: topics handled and links delivered. */
  datatype Ledger = Ledger(posted: set<string>, seen: set<string>)

  predicate Grows(before: Ledger, after: Ledger) {
    before.posted <= after.posted && before.seen <= after.seen
  }

  /** bot.py:120: the files whose link has not been delivered, in order. */
  function NewFiles(files: seq<FileRecord>, posted: set<string>): (r: seq<FileRecord>)
    ensures |r| <= |files|
    ensures forall f :: f in r <==> f in files && f.link !in posted
  {
    if files == [] then []
    else
      var rest := NewFiles(files[1..], posted);
      assert files == [files[0]] + files[1..];
      if files[0].link in posted then rest else [files[0]] + rest
  }

  /** The filter keeps order: it works file by file. */
  lemma {:induction false} NewFilesConcat(a: seq<FileRecord>, b: seq<FileRecord>, posted: set<string>)
    ensures NewFiles(a + b, posted) == NewFiles(a, posted) + NewFiles(b, posted)
    decreases |a|
  {
    if a != [] {
      assert (a + b)[1..] == a[1..] + b;
      assert (a + b)[0] == a[0];
      NewFilesConcat(a[1..], b, posted);
      var rest := NewFiles(a[1..], posted) + NewFiles(b, posted);
      if a[0].link in posted {
        assert NewFiles(a + b, posted) == rest;
      } else {
        assert NewFiles(a + b, posted) == [a[0]] + rest;
      }
    } else {
      assert a + b == b;
    }
  }

  lemma {:induction false} NewFilesEmpty(files: seq<FileRecord>, posted: set<string>)
    requires forall f :: f in files ==> f.link in posted
    ensures NewFiles(files, posted) == []
    decreases |files|
  {
    if files != [] {
      assert files[0] in files;
      NewFilesEmpty(files[1..], posted);
    }
  }

  /** The attempts for `files`, numbered from `k`. */
  function Attempts(files: seq<FileRecord>, ok: nat -> bool, k: nat): (r: seq<Attempt>)
    ensures |r| == |files|
  {
    seq(|files|, i requires 0 <= i < |files| => MakeAttempt(files[i], ok(k + i)))
  }

  lemma AttemptsWellFormed(files: seq<FileRecord>, ok: nat -> bool, k: nat)
    ensures forall a :: a in Attempts(files, ok, k) ==> WellFormed(a)
  {
  }

  lemma AttemptsSnoc(files: seq<FileRecord>, n: nat, ok: nat -> bool, k: nat)
    requires n < |files|
    ensures Attempts(files[..n + 1], ok, k) == Attempts(files[..n], ok, k) + [MakeAttempt(files[n], ok(k + n))]
  {
  }

  lemma DeliveredSnoc(log: seq<Attempt>, a: Attempt)
    ensures DeliveredLinks(log + [a]) == DeliveredLinks(log) + (if a.delivered then {a.file.link} else {})
    ensures Delivered(log + [a]) == Delivered(log) + (if a.delivered then 1 else 0)
  {
    assert (log + [a])[..|log|] == log;
  }

  /** bot.py:122: a listing already handled with nothing new is skipped. */
  predicate Skipped(l: Ledger, t: Listing) {
    t.topicUrl in l.seen && NewFiles(t.files, l.posted) == []
  }

  /** One listing of the pass (bot.py:119-153), with the attempts numbered
      from `k`. */
  function Step(l: Ledger, t: Listing, ok: nat -> bool, k: nat): (Ledger, seq<Attempt>) {
    if Skipped(l, t) then (l, [])
    else
      var log := Attempts(NewFiles(t.files, l.posted), ok, k);
      (Ledger(l.posted + DeliveredLinks(log), l.seen + {t.topicUrl}), log)
  }

  /** One pass over the listings of a cycle, in order. */
  function Cycle(l: Ledger, ts: seq<Listing>, ok: nat -> bool): (Ledger, seq<Attempt>) {
    if ts == [] then (l, [])
    else
      var n := |ts| - 1;
      var (mid, log) := Cycle(l, ts[..n], ok);
      var (after, log') := Step(mid, ts[n], ok, |log|);
      (after, log + log')
  }

  /** The pass over one more listing is one more step. */
  lemma CycleSnoc(l: Ledger, ts: seq<Listing>, i: nat, ok: nat -> bool)
    requires i < |ts|
    ensures var (mid, log) := Cycle(l, ts[..i], ok);
            var (after, log') := Step(mid, ts[i], ok, |log|);
            Cycle(l, ts[..i + 1], ok) == (after, log + log')
  {
    assert ts[..i + 1][..i] == ts[..i];
  }

  /** The topics of a sequence of listings. */
  function TopicsOf(ts: seq<Listing>): set<string> {
    if ts == [] then {} else TopicsOf(ts[..|ts| - 1]) + {ts[|ts| - 1].topicUrl}
  }

  /** The links of all files of a sequence of listings. */
  function LinksOf(ts: seq<Listing>): set<string> {
    if ts == [] then {}
    else LinksOf(ts[..|ts| - 1]) + set f | f in ts[|ts| - 1].files :: f.link
  }

  // ---- Properties of one listing ----

  /** The skip rule: no attempt, and both sets are left as they were. */
  lemma StepSkip(l: Ledger, t: Listing, ok: nat -> bool, k: nat)
    requires Skipped(l, t)
    ensures Step(l, t, ok, k) == (l, [])
  {
  }

  /** A listing that is not skipped attempts exactly its new files, in
      file order, and marks its topic seen whatever the outcomes. */
  lemma StepNotSkipped(l: Ledger, t: Listing, ok: nat -> bool, k: nat)
    requires !Skipped(l, t)
    ensures var nf := NewFiles(t.files, l.posted);
      var (after, log) := Step(l, t, ok, k);
      && |log| == |nf|
      && (forall i :: 0 <= i < |log| ==> log[i].file == nf[i] && log[i].delivered == ok(k + i))
      && after.seen == l.seen + {t.topicUrl}
      && after.posted == l.posted + DeliveredLinks(log)
  {
    var nf := NewFiles(t.files, l.posted);
    var log := Attempts(nf, ok, k);
    assert Step(l, t, ok, k).1 == log;
    forall i | 0 <= i < |log| ensures log[i].file == nf[i] && log[i].delivered == ok(k + i) {
      assert log[i] == MakeAttempt(nf[i], ok(k + i));
    }
  }

  /** Every attempt is for a file of the listing not delivered before. */
  lemma StepAttemptsAreNew(l: Ledger, t: Listing, ok: nat -> bool, k: nat)
    ensures forall a :: a in Step(l, t, ok, k).1 ==> a.file in t.files && a.file.link !in l.posted
  {
    if !Skipped(l, t) {
      var nf := NewFiles(t.files, l.posted);
      var log := Step(l, t, ok, k).1;
      forall a | a in log ensures a.file in t.files && a.file.link !in l.posted {
        var i :| 0 <= i < |log| && log[i] == a;
        assert a.file == nf[i];
      }
    }
  }

  // ---- Properties of a whole pass ----

  /** Neither set ever loses an element. */
  lemma {:induction false} CycleGrows(l: Ledger, ts: seq<Listing>, ok: nat -> bool)
    ensures Grows(l, Cycle(l, ts, ok).0)
    decreases |ts|
  {
    if ts != [] {
      CycleGrows(l, ts[..|ts| - 1], ok);
    }
  }

  /** A link is added exactly when one of its sends succeeded. */
  lemma {:induction false} CyclePosted(l: Ledger, ts: seq<Listing>, ok: nat -> bool)
    ensures Cycle(l, ts, ok).0.posted == l.posted + DeliveredLinks(Cycle(l, ts, ok).1)
    decreases |ts|
  {
    if ts != [] {
      var n := |ts| - 1;
      CyclePosted(l, ts[..n], ok);
      var (mid, log) := Cycle(l, ts[..n], ok);
      DeliveredConcat(log, Step(mid, ts[n], ok, |log|).1);
    }
  }

  /** A link ends up delivered exactly when it already was or one of its
      sends in the pass succeeded; a failed send adds nothing. */
  lemma CyclePostedMembers(l: Ledger, ts: seq<Listing>, ok: nat -> bool, link: string)
    ensures var (after, log) := Cycle(l, ts, ok);
      link in after.posted <==> link in l.posted || exists a :: a in log && a.delivered && a.file.link == link
  {
    CyclePosted(l, ts, ok);
    DeliveredLinksMembers(Cycle(l, ts, ok).1, link);
  }

  /** After the pass every listing's topic is seen, and no other topic is
      added: a skipped topic was seen already. */
  lemma {:induction false} CycleSeen(l: Ledger, ts: seq<Listing>, ok: nat -> bool)
    ensures Cycle(l, ts, ok).0.seen == l.seen + TopicsOf(ts)
    decreases |ts|
  {
    if ts != [] {
      CycleSeen(l, ts[..|ts| - 1], ok);
    }
  }

  /** Every attempt of a pass sends its file under the name derived from
      its title (no space, `.torrent` at the end, by FileNameShape) and
      with the file's caption. */
  lemma {:induction false} CycleLogShape(l: Ledger, ts: seq<Listing>, ok: nat -> bool)
    ensures forall a :: a in Cycle(l, ts, ok).1 ==> WellFormed(a)
    decreases |ts|
  {
    if ts != [] {
      var n := |ts| - 1;
      CycleLogShape(l, ts[..n], ok);
      var (mid, log) := Cycle(l, ts[..n], ok);
      var t := ts[n];
      if !Skipped(mid, t) {
        AttemptsWellFormed(NewFiles(t.files, mid.posted), ok, |log|);
      }
    }
  }

  /** When every send of a pass succeeded, running the same listings again
      attempts nothing and changes nothing. */
  lemma CycleIdempotent(l: Ledger, ts: seq<Listing>, ok: nat -> bool, ok': nat -> bool)
    requires AllDelivered(Cycle(l, ts, ok).1)
    ensures Cycle(Cycle(l, ts, ok).0, ts, ok') == (Cycle(l, ts, ok).0, [])
  {
    var after := Cycle(l, ts, ok).0;
    CycleCovers(l, ts, ok);
    CycleOfCovered(after, ts, ok');
  }

  /** A ledger that holds every topic and every link of the listings. */
  predicate Covers(l: Ledger, ts: seq<Listing>) {
    TopicsOf(ts) <= l.seen && LinksOf(ts) <= l.posted
  }

  lemma {:induction false} CycleCovers(l: Ledger, ts: seq<Listing>, ok: nat -> bool)
    requires AllDelivered(Cycle(l, ts, ok).1)
    ensures Covers(Cycle(l, ts, ok).0, ts)
    decreases |ts|
  {
    if ts != [] {
      var n := |ts| - 1;
      var (mid, log) := Cycle(l, ts[..n], ok);
      var (after, log') := Step(mid, ts[n], ok, |log|);
      assert forall a :: a in log ==> a in log + log';
      assert forall a :: a in log' ==> a in log + log';
      CycleCovers(l, ts[..n], ok);
      StepCovers(mid, ts[n], ok, |log|);
    }
  }

  /** A listing whose sends all succeeded leaves its topic and all its
      links in the ledger. */
  lemma StepCovers(l: Ledger, t: Listing, ok: nat -> bool, k: nat)
    requires AllDelivered(Step(l, t, ok, k).1)
    ensures var after := Step(l, t, ok, k).0;
      Grows(l, after) && t.topicUrl in after.seen && forall f :: f in t.files ==> f.link in after.posted
  {
    var (after, log) := Step(l, t, ok, k);
    forall f | f in t.files ensures f.link in after.posted {
      if f.link !in l.posted {
        var nf := NewFiles(t.files, l.posted);
        var i :| 0 <= i < |nf| && nf[i] == f;
        assert log[i] in log;
        DeliveredLinksMembers(log, f.link);
      }
    }
  }

  lemma {:induction false} CycleOfCovered(l: Ledger, ts: seq<Listing>, ok: nat -> bool)
    requires Covers(l, ts)
    ensures Cycle(l, ts, ok) == (l, [])
    decreases |ts|
  {
    if ts != [] {
      var n := |ts| - 1;
      var t := ts[n];
      assert LinksOf(ts[..n]) <= LinksOf(ts);
      assert TopicsOf(ts[..n]) <= TopicsOf(ts);
      CycleOfCovered(l, ts[..n], ok);
      NewFilesEmpty(t.files, l.posted);
      assert Skipped(l, t);
      assert Step(l, t, ok, 0) == (l, []);
      assert Cycle(l, ts[..n], ok) == (l, []);
      var log := Cycle(l, ts[..n], ok).1;
      assert |log| == 0;
      assert Cycle(l, ts, ok) == (Step(l, t, ok, 0).0, log + Step(l, t, ok, 0).1);
      assert Cycle(l, ts, ok).0 == l;
      assert Cycle(l, ts, ok).1 == [];
    }
  }

  /** Failure isolation end to end: before a pass a topic is new; after it,
      the topic is seen exactly when some visited href resolves to it, its
      page was fetched and the page has a file. A topic whose fetch failed,
      or whose page had no file, stays unseen and is retried next cycle. */
  lemma CycleTopicSeen(l: Ledger, anchors: seq<Anchor>, fetch: string -> Option<seq<Anchor>>,
                       ok: nat -> bool, url: string)
    requires url !in l.seen
    ensures url in Cycle(l, CrawlSpec(Some(anchors), fetch), ok).0.seen
        <==> exists rel :: rel in TopicList(anchors) && ResolveUrl(rel) == url
               && fetch(url).Some? && FilesOf(fetch(url).value) != []
  {
    var ts := CrawlSpec(Some(anchors), fetch);
    CycleSeen(l, ts, ok);
    TopicsOfMembers(ts, url);
    CrawlTopicIncluded(anchors, fetch, url);
  }

  lemma {:induction false} TopicsOfMembers(ts: seq<Listing>, url: string)
    ensures url in TopicsOf(ts) <==> exists t :: t in ts && t.topicUrl == url
    decreases |ts|
  {
    if ts != [] {
      var init := ts[..|ts| - 1];
      TopicsOfMembers(init, url);
      assert ts == init + [ts[|ts| - 1]];
      if t :| t in ts && t.topicUrl == url {
        if t in init {} else { assert t == ts[|ts| - 1]; }
      }
    }
  }

  /** A homepage failure makes the pass a no-op. */
  lemma HomepageFailureCycle(l: Ledger, fetch: string -> Option<seq<Anchor>>, ok: nat -> bool)
    ensures Cycle(l, CrawlSpec(None, fetch), ok) == (l, [])
  {
  }

  /** `new_files` is computed once per listing, so a link that appears
      twice on one topic page is sent twice in the same pass. */
  lemma DuplicateLinkSentTwice(f: FileRecord, url: string)
    ensures var t := Listing(url, f.title, f.size, [f, f]);
      |Cycle(Ledger({}, {}), [t], _ => true).1| == 2
  {
    var t := Listing(url, f.title, f.size, [f, f]);
    assert [t][..0] == [];
    assert NewFiles([f, f], {}) == [f, f] by {
      assert [f, f][1..] == [f];
      assert [f][1..] == [];
    }
  }

  // ---- The bot ----

  /** `MN_Bot`'s dedup state, with the sends and pauses it caused. */
  class Bot {
    var postedLinks: set<string>
    var seenTopics: set<string>
    ghost var sent: seq<Attempt>
    ghost var pauses: nat

    /** A link is recorded exactly when one of its sends succeeded, and
        every successful send was followed by one pause. */
    ghost predicate Valid()
      reads this
    {
      postedLinks == DeliveredLinks(sent) && pauses == Delivered(sent)
    }

    function State(): Ledger
      reads this
    {
      Ledger(postedLinks, seenTopics)
    }

    constructor ()
      ensures Valid()
      ensures postedLinks == {} && seenTopics == {} && sent == [] && pauses == 0
    {
      postedLinks := {};
      seenTopics := {};
      sent := [];
      pauses := 0;
    }

    /** The body of `auto_post_torrents`'s loop over the crawled listings
        (bot.py:118-153). */
    method PostListings(torrents: seq<Listing>, ok: nat -> bool)
      requires Valid()
      modifies this
      ensures Valid()
      ensures State() == Cycle(old(State()), torrents, ok).0
      ensures sent == old(sent) + Cycle(old(State()), torrents, ok).1
      ensures pauses == old(pauses) + Delivered(Cycle(old(State()), torrents, ok).1)
    {
      ghost var start := State();
      ghost var sent0 := sent;
      ghost var log: seq<Attempt> := [];
      var attempt := 0;
      for i := 0 to |torrents|
        invariant Valid()
        invariant Cycle(start, torrents[..i], ok) == (State(), log)
        invariant sent == sent0 + log
        invariant attempt == |log|
      {
        ghost var step := Step(State(), torrents[i], ok, attempt);
        CycleSnoc(start, torrents, i, ok);
        attempt := PostListing(torrents[i], ok, attempt);
        log := log + step.1;
      }
      assert torrents[..|torrents|] == torrents;
      DeliveredConcat(sent0, log);
    }

    /** One listing (bot.py:119-153): skipped when its topic was seen and
        nothing in it is new; otherwise its new files are sent and the
        topic is recorded. `attempt` numbers the sends of the cycle. */
    method PostListing(t: Listing, ok: nat -> bool, attempt: nat) returns (next: nat)
      requires Valid()
      modifies this
      ensures Valid()
      ensures State() == Step(old(State()), t, ok, attempt).0
      ensures sent == old(sent) + Step(old(State()), t, ok, attempt).1
      ensures next == attempt + |Step(old(State()), t, ok, attempt).1|
    {
      var topic := t.topicUrl;
      var newFiles := NewFiles(t.files, postedLinks);
      if topic in seenTopics && newFiles == [] {
        return attempt;
      }
      SendFiles(newFiles, ok, attempt);
      next := attempt + |newFiles|;
      seenTopics := seenTopics + {topic};
    }

    /** The loop over one listing's new files (bot.py:125-153): each is
        fetched and sent; a success records its link and pauses, a
        failure leaves the link out so that a later cycle retries it. */
    method SendFiles(newFiles: seq<FileRecord>, ok: nat -> bool, first: nat)
      requires Valid()
      modifies this
      ensures Valid()
      ensures seenTopics == old(seenTopics)
      ensures postedLinks == old(postedLinks) + DeliveredLinks(Attempts(newFiles, ok, first))
      ensures sent == old(sent) + Attempts(newFiles, ok, first)
    {
      ghost var sent0, posted0 := sent, postedLinks;
      ghost var done: seq<Attempt> := [];
      var attempt := first;
      for j := 0 to |newFiles|
        invariant Valid() && seenTopics == old(seenTopics)
        invariant done == Attempts(newFiles[..j], ok, first)
        invariant postedLinks == posted0 + DeliveredLinks(done)
        invariant sent == sent0 + done
        invariant attempt == first + j
      {
        var success := ok(attempt);
        ghost var a := MakeAttempt(newFiles[j], success);
        AttemptsSnoc(newFiles, j, ok, first);
        DeliveredSnoc(done, a);
        SendFile(newFiles[j], success);
        done := done + [a];
        attempt := attempt + 1;
      }
      assert newFiles[..|newFiles|] == newFiles;
    }

    /** One file (bot.py:127-150): its file name and caption are built and
        the send is made; `success` is the outcome of download and upload
        together. Only a success records the link and pauses. */
    method SendFile(file: FileRecord, success: bool)
      requires Valid()
      modifies this
      ensures Valid()
      ensures seenTopics == old(seenTopics)
      ensures postedLinks == old(postedLinks) + (if success then {file.link} else {})
      ensures sent == old(sent) + [MakeAttempt(file, success)]
    {
      var fileName := FileName(file.title);
      var caption := Caption(file);
      ghost var a := Attempt(file, fileName, caption, success);
      DeliveredSnoc(sent, a);
      sent := sent + [a];
      if success {
        postedLinks := postedLinks + {file.link};
        pauses := pauses + 1;
      }
    }

    /** One cycle of `auto_post_torrents`: crawl, then deliver. */
    method RunCycle(home: Option<seq<Anchor>>, fetch: string -> Option<seq<Anchor>>, ok: nat -> bool)
      requires Valid()
      modifies this
      ensures Valid()
      ensures State() == Cycle(old(State()), CrawlSpec(home, fetch), ok).0
      ensures sent == old(sent) + Cycle(old(State()), CrawlSpec(home, fetch), ok).1
      ensures pauses == old(pauses) + Delivered(Cycle(old(State()), CrawlSpec(home, fetch), ok).1)
    {
      var torrents := Crawl.Crawl(home, fetch);
      PostListings(torrents, ok);
    }
  }
}
