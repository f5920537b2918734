// The non-I/O part of `crawl_tamilmv` (bot.py:40-94). The HTML layer is
// input: a page is the sequence of anchors its selector picked out, and a
// fetch that fails (network, HTTP status or parse) is `None`.

module Crawl {
  import opened Wrappers
  import opened Text
  import opened SizeExtract

  const BaseUrl: string := "https://www.1tamilmv.kiwi"
  const MaxTopics: nat := 15
  const SiteTag: string := "www.1TamilMV"
  const TorrentSuffix: string := ".torrent"

  /** An anchor element: its `href` attribute, if any, and its visible text. */
  datatype Anchor = Anchor(href: Option<string>, text: string)

  /** One downloadable torrent of a topic. */
  datatype FileRecord = FileRecord(title: string, link: string, size: string)

  /** A topic with at least one file; title and size come from the first. */
  datatype Listing = Listing(topicUrl: string, title: string, size: string, files: seq<FileRecord>)

  /** `a.get("href")` is truthy: present and not empty. */
  predicate HasHref(a: Anchor) {
    a.href.Some? && a.href.value != []
  }

  predicate NoDuplicates<T(==)>(xs: seq<T>) {
    forall i, j :: 0 <= i < j < |xs| ==> xs[i] != xs[j]
  }

  // ---- Topic list (bot.py:50-55) ----

  /** The hrefs of the homepage's topic anchors, skipping empty ones. */
  function TopicHrefs(anchors: seq<Anchor>): (r: seq<string>)
    ensures forall h :: h in r ==> h != []
    ensures forall h :: h in r <==> exists k :: 0 <= k < |anchors| && anchors[k].href == Some(h) && h != []
  {
    if anchors == [] then []
    else
      var rest := TopicHrefs(anchors[1..]);
      assert forall k :: 0 < k < |anchors| ==> anchors[k] == anchors[1..][k - 1];
      if HasHref(anchors[0]) then [anchors[0].href.value] + rest else rest
  }

  /** The hrefs keep anchor order: those of a concatenation are those of
      each part, in turn. */
  lemma {:induction false} TopicHrefsConcat(a: seq<Anchor>, b: seq<Anchor>)
    ensures TopicHrefs(a + b) == TopicHrefs(a) + TopicHrefs(b)
    decreases |a|
  {
    if a == [] {
      assert a + b == b;
    } else {
      assert (a + b)[1..] == a[1..] + b;
      assert (a + b)[0] == a[0];
      TopicHrefsConcat(a[1..], b);
    }
  }

  /** Index of the first occurrence of `x` in `xs`. */
  function FirstIndex(xs: seq<string>, x: string): (i: nat)
    requires x in xs
    ensures i < |xs| && xs[i] == x && x !in xs[..i]
  {
    if xs[0] == x then 0
    else
      var i := 1 + FirstIndex(xs[1..], x);
      assert xs[..i] == [xs[0]] + xs[1..][..i - 1];
      i
  }

  lemma {:induction false} FirstIndexInPrefix(xs: seq<string>, n: nat, x: string)
    requires n <= |xs| && x in xs[..n]
    ensures x in xs && FirstIndex(xs, x) == FirstIndex(xs[..n], x)
  {
    var i := FirstIndex(xs[..n], x);
    var j := FirstIndex(xs, x);
    assert xs[..n][..i] == xs[..i];
  }

  /** `list(dict.fromkeys(xs))`: the distinct elements of `xs`, each once,
      ordered by where they first occur. */
  function Dedup(xs: seq<string>): (r: seq<string>)
    ensures NoDuplicates(r)
    ensures forall x :: x in r <==> x in xs
    ensures forall i, j :: 0 <= i < j < |r| ==> FirstIndex(xs, r[i]) < FirstIndex(xs, r[j])
  {
    if xs == [] then []
    else
      var n := |xs| - 1;
      var init := xs[..n];
      var d := Dedup(init);
      var x := xs[n];
      assert xs == init + [x];
      forall y | y in d ensures FirstIndex(xs, y) == FirstIndex(init, y) < n {
        FirstIndexInPrefix(xs, n, y);
      }
      if x in d then d
      else
        assert FirstIndex(xs, x) == n;
        d + [x]
  }

  /** `xs[:n]` */
  function Take<T>(xs: seq<T>, n: nat): (r: seq<T>)
    ensures |r| == if |xs| <= n then |xs| else n
    ensures r == xs[..|r|]
  {
    if |xs| <= n then xs else xs[..n]
  }

  /** The topic hrefs the crawl visits, in order. */
  function TopicList(anchors: seq<Anchor>): seq<string> {
    Take(Dedup(TopicHrefs(anchors)), MaxTopics)
  }

  /** Everything bot.py:50-55 promises about the topics it visits. */
  lemma TopicListFacts(anchors: seq<Anchor>)
    ensures var r := TopicList(anchors);
      && |r| <= MaxTopics
      && NoDuplicates(r)
      && (forall h :: h in r ==> h != [] && exists k :: 0 <= k < |anchors| && anchors[k].href == Some(h))
      && (forall i, j :: 0 <= i < j < |r| ==>
            FirstIndex(TopicHrefs(anchors), r[i]) < FirstIndex(TopicHrefs(anchors), r[j]))
      && r == Dedup(TopicHrefs(anchors))[..|r|]
      && |r| == if |Dedup(TopicHrefs(anchors))| <= MaxTopics then |Dedup(TopicHrefs(anchors))| else MaxTopics
  {
    var hs := TopicHrefs(anchors);
    var d := Dedup(hs);
    var r := TopicList(anchors);
    forall h | h in r ensures h in hs { assert h in d; }
    forall i, j | 0 <= i < j < |r| ensures FirstIndex(hs, r[i]) < FirstIndex(hs, r[j]) {
      assert r[i] == d[i] && r[j] == d[j];
    }
  }

  /** No distinct href is dropped while fewer than MaxTopics exist. */
  lemma TopicListComplete(anchors: seq<Anchor>, h: string)
    requires |Dedup(TopicHrefs(anchors))| <= MaxTopics
    ensures h in TopicList(anchors) <==> exists k :: 0 <= k < |anchors| && anchors[k].href == Some(h) && h != []
  {
  }

  // ---- URL resolution (bot.py:57) ----

  /** A topic href made absolute: kept when it starts with "http",
      otherwise appended to the site's base URL. */
  function ResolveUrl(rel: string): (r: string)
    ensures StartsWith(r, "http")
    ensures StartsWith(rel, "http") ==> r == rel
    ensures !StartsWith(rel, "http") ==> r == BaseUrl + rel
  {
    if StartsWith(rel, "http") then rel
    else
      assert (BaseUrl + rel)[..4] == BaseUrl[..4];
      BaseUrl + rel
  }

  lemma ResolveUrlIdempotent(rel: string)
    ensures ResolveUrl(ResolveUrl(rel)) == ResolveUrl(rel)
  {
  }

  /** Dedup runs on the raw hrefs, before resolution, so a relative and an
      absolute href of the same topic are both visited. */
  lemma ResolvedTopicsMayRepeat()
    ensures var a := "/forums/topic/1"; var b := BaseUrl + a;
      a != b && ResolveUrl(a) == ResolveUrl(b)
  {
    var a := "/forums/topic/1";
    var b := BaseUrl + a;
    assert !StartsWith(a, "http") by { assert a[0] != "http"[0]; }
    assert StartsWith(b, "http") by { assert b[..4] == "http"; }
  }

  // ---- File records (bot.py:65-78) ----

  /** `raw.replace("www.1TamilMV", "").replace(".torrent", "").strip()` */
  function Title(raw: string): string {
    Strip(ReplaceAll(ReplaceAll(raw, SiteTag, ""), TorrentSuffix, ""))
  }

  /** Only the site tag and the `.torrent` suffix are removed from a
      title: in "www.1TamilMV <name>.torrent <size>" the size after the
      suffix stays in the title, whenever the tag occurs only at the front,
      the suffix is the first `.torrent` after the name and the size text
      holds no `.torrent`. */
  lemma TitleKeepsSize(name: string, size: string)
    requires Lacks(" " + name + TorrentSuffix + " " + size, SiteTag)
    requires NoOccurrenceBefore(name + TorrentSuffix, TorrentSuffix, |name|)
    requires Lacks(" " + size, TorrentSuffix)
    ensures Title(SiteTag + " " + name + TorrentSuffix + " " + size) == Strip(name + " " + size)
  {
    var raw := SiteTag + " " + name + TorrentSuffix + " " + size;
    var rest := " " + name + TorrentSuffix + " " + size;
    var u := name + " " + size;
    assert raw == SiteTag + rest;
    var r1 := ReplaceAll(raw, SiteTag, "");
    assert r1 == rest by { SiteTagRemoved(rest); }
    var suffix, front, back := TorrentSuffix, " " + name, " " + size;
    assert rest == front + suffix + back;
    SuffixFirstAfterName(name, back);
    ReplaceAllOnce(front, suffix, back, "");
    assert front + "" + back == [' '] + u;
    var r2 := ReplaceAll(r1, TorrentSuffix, "");
    assert Title(raw) == Strip(r2);
    StripLeadingSpace(u);
  }

  lemma SiteTagRemoved(rest: string)
    requires Lacks(rest, SiteTag)
    ensures ReplaceAll(SiteTag + rest, SiteTag, "") == rest
  {
    var tag := SiteTag;
    assert tag + rest == [] + tag + rest;
    ReplaceAllOnce([], tag, rest, "");
  }

  lemma SuffixFirstAfterName(name: string, back: string)
    requires NoOccurrenceBefore(name + TorrentSuffix, TorrentSuffix, |name|)
    ensures NoOccurrenceBefore(" " + name + TorrentSuffix + back, TorrentSuffix, |name| + 1)
  {
    var inner := name + TorrentSuffix;
    var s := " " + name + TorrentSuffix + back;
    assert s == [' '] + inner + back;
    forall i: nat | i < |name| + 1 ensures !OccursAt(s, TorrentSuffix, i) {
      if i == 0 {
        assert s[0] != TorrentSuffix[0];
      } else {
        assert !OccursAt(inner, TorrentSuffix, i - 1);
        assert s[i..i + |TorrentSuffix|] == inner[i - 1..i - 1 + |TorrentSuffix|];
      }
    }
  }

  lemma StripLeadingSpace(u: string)
    ensures Strip([' '] + u) == Strip(u)
  {
    var s := [' '] + u;
    assert IsSpace(s[0]) && s[1..] == u;
  }

  /** A title can still hold `.torrent`: removing the one occurrence in
      ".tor" + ".torrent" + "rent" joins the text around it into a new one. */
  lemma TitleMayKeepSuffix(a: string, b: string)
    requires a == ".tor" && b == "rent"
    ensures Title(a + TorrentSuffix + b) == TorrentSuffix
  {
    var suffix := TorrentSuffix;
    var s := a + suffix + b;
    NoSiteTagIn(a, b);
    ReplaceAllNoOccurrence(s, SiteTag, "");
    SuffixInsideOnlyOnce(a, b);
    assert suffix[0] !in b;
    PatternCharAbsent(b, suffix, 0);
    ReplaceAllOnce(a, suffix, b, "");
    assert a + "" + b == suffix;
    assert TrimLeft(suffix) == suffix && TrimRight(suffix) == suffix;
  }

  lemma NoSiteTagIn(a: string, b: string)
    requires a == ".tor" && b == "rent"
    ensures Lacks(a + TorrentSuffix + b, SiteTag)
  {
    var tag := SiteTag;
    var s := a + TorrentSuffix + b;
    assert tag[0] !in s[..|s|];
    FirstCharAbsent(s, tag, |s|);
  }

  lemma SuffixInsideOnlyOnce(a: string, b: string)
    requires a == ".tor" && b == "rent"
    ensures NoOccurrenceBefore(a + TorrentSuffix + b, TorrentSuffix, |a|)
  {
    var suffix := TorrentSuffix;
    var s := a + suffix + b;
    forall i: nat | i < |a| ensures !OccursAt(s, suffix, i) {
      if i == 0 {
        assert s[..|suffix|][4] == s[4] != suffix[4];
      } else {
        assert s[i..i + |suffix|][0] == s[i] != suffix[0];
      }
    }
  }

  /** The file record of an anchor that has an href. The anchor's text
      stands for `get_text`; `strip=True` is taken as one strip of it. */
  function MakeFile(a: Anchor): FileRecord
    requires HasHref(a)
  {
    var raw := Strip(a.text);
    FileRecord(Title(raw), Strip(a.href.value), ExtractSize(raw))
  }

  /** A file's link is its href with only the whitespace at both ends
      dropped, and its title neither starts nor ends with whitespace. */
  lemma MakeFileFacts(a: Anchor)
    requires HasHref(a)
    ensures var f := MakeFile(a); var h := a.href.value;
      && (exists i, j :: 0 <= i <= j <= |h| && f.link == h[i..j] && AllSpace(h[..i]) && AllSpace(h[j..]))
      && (f.link == [] || (!IsSpace(f.link[0]) && !IsSpace(f.link[|f.link| - 1])))
      && (f.title == [] || (!IsSpace(f.title[0]) && !IsSpace(f.title[|f.title| - 1])))
  {
    StripIsTrimmedSlice(a.href.value);
    StripIsTrimmedSlice(ReplaceAll(ReplaceAll(Strip(a.text), SiteTag, ""), TorrentSuffix, ""));
  }

  /** The anchors of a page that have an href, in page order. */
  function Hrefs(anchors: seq<Anchor>): (r: seq<Anchor>)
    ensures |r| <= |anchors|
    ensures forall a :: a in r <==> a in anchors && HasHref(a)
  {
    if anchors == [] then []
    else
      var n := |anchors| - 1;
      assert anchors == anchors[..n] + [anchors[n]];
      Hrefs(anchors[..n]) + (if HasHref(anchors[n]) then [anchors[n]] else [])
  }

  /** The file records of anchors that all have an href. */
  function MakeFiles(hs: seq<Anchor>): (r: seq<FileRecord>)
    requires forall a :: a in hs ==> HasHref(a)
    ensures |r| == |hs|
  {
    seq(|hs|, i requires 0 <= i < |hs| => MakeFile(hs[i]))
  }

  /** The files of a topic page, anchor by anchor; anchors without an href
      contribute nothing. */
  function FilesOf(anchors: seq<Anchor>): (r: seq<FileRecord>)
    ensures |r| <= |anchors|
  {
    MakeFiles(Hrefs(anchors))
  }

  lemma {:induction false} HrefsConcat(a: seq<Anchor>, b: seq<Anchor>)
    ensures Hrefs(a + b) == Hrefs(a) + Hrefs(b)
    decreases |b|
  {
    if b == [] {
      assert a + b == a;
    } else {
      var n := |b| - 1;
      assert (a + b)[..|a + b| - 1] == a + b[..n];
      HrefsConcat(a, b[..n]);
    }
  }

  /** Files keep anchor order: the files of a concatenation are the files
      of each part, in turn. */
  lemma FilesOfConcat(a: seq<Anchor>, b: seq<Anchor>)
    ensures FilesOf(a + b) == FilesOf(a) + FilesOf(b)
  {
    HrefsConcat(a, b);
    var ha, hb := Hrefs(a), Hrefs(b);
    assert Hrefs(a + b) == ha + hb;
    forall i | 0 <= i < |ha| + |hb|
      ensures FilesOf(a + b)[i] == (FilesOf(a) + FilesOf(b))[i]
    {
      if i < |ha| { assert (ha + hb)[i] == ha[i]; }
      else { assert (ha + hb)[i] == hb[i - |ha|]; }
    }
  }

  /** One more anchor adds its file, if it has an href. */
  lemma FilesOfSnoc(anchors: seq<Anchor>, x: Anchor)
    ensures FilesOf(anchors + [x]) == FilesOf(anchors) + if HasHref(x) then [MakeFile(x)] else []
  {
    assert (anchors + [x])[..|anchors|] == anchors;
    var h := Hrefs(anchors);
    assert Hrefs(anchors + [x]) == h + if HasHref(x) then [x] else [];
    if HasHref(x) {
      var hx := h + [x];
      assert forall i :: 0 <= i < |h| ==> hx[i] == h[i];
      assert FilesOf(anchors + [x]) == MakeFiles(hx);
      assert MakeFiles(hx) == MakeFiles(h) + [MakeFile(x)];
    }
  }

  /** The index of the first anchor with an href. */
  predicate FirstWithHref(anchors: seq<Anchor>, k: nat) {
    k < |anchors| && HasHref(anchors[k]) && forall k' :: 0 <= k' < k ==> !HasHref(anchors[k'])
  }

  /** A page has a file exactly when some anchor has an href. */
  lemma FilesOfNonEmpty(anchors: seq<Anchor>)
    ensures FilesOf(anchors) != [] <==> exists k :: 0 <= k < |anchors| && HasHref(anchors[k])
  {
    var h := Hrefs(anchors);
    if h != [] {
      assert h[0] in h;
    }
  }

  lemma {:induction false} HrefsFirst(anchors: seq<Anchor>)
    requires Hrefs(anchors) != []
    ensures exists k: nat :: FirstWithHref(anchors, k) && Hrefs(anchors)[0] == anchors[k]
    decreases |anchors|
  {
    var n := |anchors| - 1;
    var init := anchors[..n];
    if Hrefs(init) != [] {
      HrefsFirst(init);
      var k: nat :| FirstWithHref(init, k) && Hrefs(init)[0] == init[k];
      assert forall k' :: 0 <= k' <= k ==> init[k'] == anchors[k'];
      assert FirstWithHref(anchors, k);
    } else {
      assert forall k :: 0 <= k < n ==> init[k] in init;
      assert forall k :: 0 <= k < n ==> init[k] == anchors[k];
      assert FirstWithHref(anchors, n);
    }
  }

  /** The first file comes from the first anchor that has an href. */
  lemma FilesOfFirst(anchors: seq<Anchor>)
    requires FilesOf(anchors) != []
    ensures exists k: nat :: FirstWithHref(anchors, k) && FilesOf(anchors)[0] == MakeFile(anchors[k])
  {
    HrefsFirst(anchors);
    var k: nat :| FirstWithHref(anchors, k) && Hrefs(anchors)[0] == anchors[k];
    assert FilesOf(anchors)[0] == MakeFile(anchors[k]);
  }

  /** Every file comes from an anchor with an href of the page. */
  lemma FilesOfFromAnchors(anchors: seq<Anchor>, f: FileRecord)
    requires f in FilesOf(anchors)
    ensures exists k :: 0 <= k < |anchors| && HasHref(anchors[k]) && f == MakeFile(anchors[k])
  {
    var h := Hrefs(anchors);
    var i :| 0 <= i < |h| && FilesOf(anchors)[i] == f;
    assert h[i] in h;
    var k :| 0 <= k < |anchors| && anchors[k] == h[i];
  }

  // ---- Listings (bot.py:80-86) ----

  /** The listing of a topic page, if it has any file. */
  function ListingOf(url: string, anchors: seq<Anchor>): Option<Listing> {
    var files := FilesOf(anchors);
    if files == [] then None
    else Some(Listing(url, files[0].title, files[0].size, files))
  }

  /** A page yields a listing exactly when one of its anchors has an href;
      the listing carries all the page's files, headed by the first. */
  lemma ListingOfFacts(url: string, anchors: seq<Anchor>)
    ensures var r := ListingOf(url, anchors);
            && (r.Some? <==> exists k :: 0 <= k < |anchors| && HasHref(anchors[k]))
            && (r.Some? ==>
                  && r.value.topicUrl == url && r.value.files == FilesOf(anchors) && r.value.files != []
                  && r.value.title == r.value.files[0].title && r.value.size == r.value.files[0].size)
  {
    FilesOfNonEmpty(anchors);
  }

  /** One topic of the loop at bot.py:55-89: fetched and parsed, or
      dropped when the fetch fails or it yields no file. */
  function TopicListing(rel: string, fetch: string -> Option<seq<Anchor>>): Option<Listing> {
    var url := ResolveUrl(rel);
    match fetch(url)
    case None => None
    case Some(page) => ListingOf(url, page)
  }

  /** The listings of the topics `rels`, in order. */
  function ListingsOf(rels: seq<string>, fetch: string -> Option<seq<Anchor>>): (r: seq<Listing>)
    ensures |r| <= |rels|
  {
    if rels == [] then []
    else
      var n := |rels| - 1;
      var t := TopicListing(rels[n], fetch);
      ListingsOf(rels[..n], fetch) + (if t.Some? then [t.value] else [])
  }

  lemma ListingsOfSnoc(rels: seq<string>, i: nat, fetch: string -> Option<seq<Anchor>>)
    requires i < |rels|
    ensures var t := TopicListing(rels[i], fetch);
      ListingsOf(rels[..i + 1], fetch) == ListingsOf(rels[..i], fetch) + (if t.Some? then [t.value] else [])
  {
    assert rels[..i + 1][..i] == rels[..i];
  }

  /** What `crawl_tamilmv` returns: nothing when the homepage fails. */
  function CrawlSpec(home: Option<seq<Anchor>>, fetch: string -> Option<seq<Anchor>>): seq<Listing> {
    match home
    case None => []
    case Some(anchors) => ListingsOf(TopicList(anchors), fetch)
  }

  /** Topics are handled independently: a topic contributes its own
      listing or nothing, and never affects the others. */
  lemma {:induction false} ListingsOfConcat(a: seq<string>, b: seq<string>, fetch: string -> Option<seq<Anchor>>)
    ensures ListingsOf(a + b, fetch) == ListingsOf(a, fetch) + ListingsOf(b, fetch)
    decreases |b|
  {
    if b == [] {
      assert a + b == a;
    } else {
      var n := |b| - 1;
      assert (a + b)[..|a + b| - 1] == a + b[..n];
      ListingsOfConcat(a, b[..n], fetch);
    }
  }

  /** A topic whose fetch fails is omitted and the topics around it are
      still processed. */
  lemma FailedTopicOmitted(a: seq<string>, rel: string, b: seq<string>, fetch: string -> Option<seq<Anchor>>)
    requires fetch(ResolveUrl(rel)).None?
    ensures ListingsOf(a + [rel] + b, fetch) == ListingsOf(a, fetch) + ListingsOf(b, fetch)
  {
    var left := a + [rel];
    ListingsOfConcat(left, b, fetch);
    ListingsOfConcat(a, [rel], fetch);
    assert ListingsOf([rel], fetch) == [] by {
      assert [rel][..0] == [];
      assert TopicListing(rel, fetch) == None;
    }
    assert ListingsOf(left, fetch) == ListingsOf(a, fetch);
  }

  lemma HomepageFailureYieldsNothing(fetch: string -> Option<seq<Anchor>>)
    ensures CrawlSpec(None, fetch) == []
  {
  }

  /** A topic that yields a listing was fetched at its resolved address,
      and the listing is that page's. */
  lemma TopicListingSound(rel: string, fetch: string -> Option<seq<Anchor>>)
    requires TopicListing(rel, fetch).Some?
    ensures var url := ResolveUrl(rel);
            && fetch(url).Some? && TopicListing(rel, fetch).value.topicUrl == url
            && TopicListing(rel, fetch) == ListingOf(url, fetch(url).value)
  {
  }

  /** Each listing is the listing of one of the visited topics: the topic
      at the returned index, whose fetch succeeded. */
  lemma {:induction false} ListingsOfSound(rels: seq<string>, fetch: string -> Option<seq<Anchor>>, l: Listing)
    returns (n: nat)
    requires l in ListingsOf(rels, fetch)
    ensures n < |rels| && TopicListing(rels[n], fetch) == Some(l)
    decreases |rels|
  {
    var last := |rels| - 1;
    var t := TopicListing(rels[last], fetch);
    assert ListingsOf(rels, fetch) == ListingsOf(rels[..last], fetch) + (if t.Some? then [t.value] else []);
    if l in ListingsOf(rels[..last], fetch) {
      n := ListingsOfSound(rels[..last], fetch, l);
      assert rels[..last][n] == rels[n];
    } else {
      n := last;
    }
  }

  /** Every visited topic whose fetch succeeds with at least one file
      yields a listing. */
  lemma {:induction false} ListingsOfComplete(rels: seq<string>, fetch: string -> Option<seq<Anchor>>, rel: string)
    requires rel in rels && TopicListing(rel, fetch).Some?
    ensures TopicListing(rel, fetch).value in ListingsOf(rels, fetch)
    decreases |rels|
  {
    var n := |rels| - 1;
    if rels[n] != rel {
      assert rel in rels[..n];
      ListingsOfComplete(rels[..n], fetch, rel);
    }
  }

  /** All of `crawl_tamilmv`'s output guarantees in one place. */
  lemma CrawlFacts(home: Option<seq<Anchor>>, fetch: string -> Option<seq<Anchor>>)
    ensures |CrawlSpec(home, fetch)| <= MaxTopics
    ensures forall l :: l in CrawlSpec(home, fetch) ==>
      l.files != [] && l.title == l.files[0].title && l.size == l.files[0].size
      && fetch(l.topicUrl).Some? && l.files == FilesOf(fetch(l.topicUrl).value)
  {
    if home.Some? {
      TopicListFacts(home.value);
      forall l | l in CrawlSpec(home, fetch)
        ensures l.files != [] && l.title == l.files[0].title && l.size == l.files[0].size
          && fetch(l.topicUrl).Some? && l.files == FilesOf(fetch(l.topicUrl).value)
      {
        var n := ListingsOfSound(TopicList(home.value), fetch, l);
        TopicListingSound(TopicList(home.value)[n], fetch);
        ListingOfFacts(l.topicUrl, fetch(l.topicUrl).value);
      }
    }
  }

  /** A topic URL has a listing in the crawl exactly when some visited
      href resolves to it, its fetch succeeds and the page has a file. */
  lemma CrawlTopicIncluded(anchors: seq<Anchor>, fetch: string -> Option<seq<Anchor>>, url: string)
    ensures (exists l :: l in CrawlSpec(Some(anchors), fetch) && l.topicUrl == url)
        <==> (exists rel :: rel in TopicList(anchors) && ResolveUrl(rel) == url
                && fetch(url).Some? && FilesOf(fetch(url).value) != [])
  {
    var rels := TopicList(anchors);
    var out := CrawlSpec(Some(anchors), fetch);
    if l :| l in out && l.topicUrl == url {
      var n := ListingsOfSound(rels, fetch, l);
      TopicListingSound(rels[n], fetch);
      assert rels[n] in rels;
    }
    if rel :| rel in rels && ResolveUrl(rel) == url && fetch(url).Some? && FilesOf(fetch(url).value) != [] {
      FilesOfNonEmpty(fetch(url).value);
      ListingsOfComplete(rels, fetch, rel);
    }
  }

  /** `crawl_tamilmv` without its I/O: the page fetches are the inputs
      `home` and `fetch`. */
  method Crawl(home: Option<seq<Anchor>>, fetch: string -> Option<seq<Anchor>>) returns (torrents: seq<Listing>)
    ensures torrents == CrawlSpec(home, fetch)
  {
    torrents := [];
    if home.None? {
      return;
    }
    var rels := TopicList(home.value);
    for i := 0 to |rels|
      invariant torrents == ListingsOf(rels[..i], fetch)
    {
      ListingsOfSnoc(rels, i, fetch);
      var listing := VisitTopic(rels[i], fetch);
      if listing.Some? {
        torrents := torrents + [listing.value];
      }
    }
    assert rels[..|rels|] == rels;
  }

  /** One topic of the loop (bot.py:56-89): resolve, fetch, parse. */
  method VisitTopic(rel: string, fetch: string -> Option<seq<Anchor>>) returns (listing: Option<Listing>)
    ensures listing == TopicListing(rel, fetch)
  {
    var topicUrl := ResolveUrl(rel);
    var page := fetch(topicUrl);
    listing := None;
    if page.Some? {
      var files := ParseFiles(page.value);
      if files != [] {
        listing := Some(Listing(topicUrl, files[0].title, files[0].size, files));
      }
    }
  }

  /** The loop over a topic page's anchors (bot.py:65-78). */
  method ParseFiles(tags: seq<Anchor>) returns (files: seq<FileRecord>)
    ensures files == FilesOf(tags)
  {
    files := [];
    for j := 0 to |tags|
      invariant files == FilesOf(tags[..j])
    {
      var tag := tags[j];
      assert tags[..j + 1] == tags[..j] + [tag];
      FilesOfSnoc(tags[..j], tag);
      if HasHref(tag) {
        var raw := Strip(tag.text);
        var title := Title(raw);
        var size := ExtractSize(raw);
        files := files + [FileRecord(title, Strip(tag.href.value), size)];
      }
    }
    assert tags[..|tags|] == tags;
  }
}
