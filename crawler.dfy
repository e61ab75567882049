/** The extractor object: the output directory it writes to, `save_text` with
    its search for a free file name, and the crawl loop of
    `extract_website_text` over the frontier and the visited set. */
module Crawler {
  import opened Strings
  import opened Urls
  import opened Render
  import opened Naming

  datatype Option<T> = None | Some(value: T)

  /** The collaborators whose code is not part of this model: the HTTP download
      (`None` for any request error, the timeout included), the elements the
      HTML parser matches in a page after dropping `script`, `style`, `nav`,
      `header` and `footer`, and the anchor targets of a page resolved against
      the page's own address and parsed. */
  datatype Web = Web(
    download: Url -> Option<string>,
    elements: string -> seq<Element>,
    anchors: (string, Url) -> seq<Url>)

  /** `if content:`: a download counts only when it returned a non-empty body. */
  predicate Downloaded(web: Web, u: Url) {
    web.download(u).Some? && web.download(u).value != ""
  }

  /** The text `extract_clean_text` makes of a downloaded page. */
  function PageText(web: Web, u: Url): string
    requires Downloaded(web, u)
  {
    CleanText(web.elements(web.download(u).value))
  }

  /** The directory went from `before` to `after` by adding the distinct new
      files `names` and changing no file it already held. */
  ghost predicate AddedFiles(before: map<string, string>, after: map<string, string>, names: seq<string>)
  {
    && (forall i :: 0 <= i < |names| ==> names[i] !in before)
    && (forall i, j :: 0 <= i < j < |names| ==> names[i] != names[j])
    && (forall f :: f in after <==> f in before || f in names)
    && (forall f :: f in before ==> after[f] == before[f])
  }

  /** The directory went from `before` to `after` by adding, for each saved
      page `saved[i]`, one new file `names[i]` holding that page's text. */
  ghost predicate SavedAs(web: Web, before: map<string, string>, after: map<string, string>,
                          saved: seq<Url>, names: seq<string>)
  {
    && |names| == |saved|
    && AddedFiles(before, after, names)
    && (forall i :: 0 <= i < |names| ==>
          && names[i] in after && Downloaded(web, saved[i]) && after[names[i]] == PageText(web, saved[i]))
  }

  lemma {:induction false} DistinctCount<T>(s: seq<T>)
    requires forall i, j :: 0 <= i < j < |s| ==> s[i] != s[j]
    ensures |set x | x in s| == |s|
  {
    if s != [] {
      var last := s[|s| - 1];
      var init := s[..|s| - 1];
      DistinctCount(init);
      assert (set x | x in s) == (set x | x in init) + {last};
      assert last !in (set x | x in init);
    }
  }

  lemma AddedKeys(before: map<string, string>, after: map<string, string>, names: seq<string>)
    requires AddedFiles(before, after, names)
    ensures after.Keys == before.Keys + (set x | x in names)
    ensures before.Keys !! (set x | x in names)
  {
    forall x | x in names
      ensures x !in before
    {
      var i :| 0 <= i < |names| && names[i] == x;
    }
  }

  /** The directory ends with exactly one more file per saved page. */
  lemma SavedFileCount(before: map<string, string>, after: map<string, string>, names: seq<string>)
    requires AddedFiles(before, after, names)
    ensures |after| == |before| + |names|
  {
    AddedKeys(before, after, names);
    DistinctCount(names);
    assert |after.Keys| == |before.Keys| + |set x | x in names|;
  }

  /** Saving one more page under a fresh name keeps the record. */
  lemma SavedAsStep(web: Web, before: map<string, string>, after: map<string, string>,
                    saved: seq<Url>, names: seq<string>, u: Url, name: string)
    requires SavedAs(web, before, after, saved, names)
    requires name !in after && Downloaded(web, u)
    ensures SavedAs(web, before, after[name := PageText(web, u)], saved + [u], names + [name])
  {
  }

  /** What a crawl has done so far, kept for the proof: the URLs whose
      download was attempted, in order; the URLs whose text was saved, in order,
      with the file names used and, for each, how many taken names were tried
      before it; and how many popped URLs were skipped as already visited. */
  datatype Trace = Trace(fetched: seq<Url>, saved: seq<Url>, names: seq<string>, probes: seq<nat>,
                         skipped: nat)

  /** A crawl's fixed inputs and the visited set and files it started from. */
  datatype Start = Start(web: Web, root: Url, baseDomain: string, maxPages: int,
                         visited: set<Url>, files: map<string, string>)

  /** The trace after a page whose download returned a body, saved as `name`
      (the `k`-th name tried) if any. */
  function AfterVisit(t: Trace, u: Url, name: Option<string>, k: nat): Trace
  {
    if name.Some? then Trace(t.fetched + [u], t.saved + [u], t.names + [name.value], t.probes + [k], t.skipped)
    else t.(fetched := t.fetched + [u])
  }

  /** The links `extract_links` finds on a downloaded page. */
  ghost function PageLinks(st: Start, u: Url): set<Url>
    requires Downloaded(st.web, u)
  {
    LinkSet(st.baseDomain, st.web.anchors(st.web.download(u).value, u))
  }

  /** `u` is a link on one of `pages` whose download returned a body. */
  ghost predicate LinkedFrom(st: Start, pages: seq<Url>, u: Url)
  {
    exists j :: 0 <= j < |pages| && Downloaded(st.web, pages[j]) && u in PageLinks(st, pages[j])
  }

  /** Downloads and the visited set. */
  ghost predicate VisitInv(st: Start, visited: set<Url>, t: Trace)
  {
    // The visited set only grows, and never past the budget it started below.
    && st.visited <= visited
    && (|st.visited| < st.maxPages ==> |visited| <= st.maxPages)
    && (|st.visited| >= st.maxPages ==> visited == st.visited && t.fetched == [])
    // A URL becomes visited exactly when one of its downloads returned a body.
    && (forall u :: u in visited && u !in st.visited ==> u in t.fetched && Downloaded(st.web, u))
    && (forall u :: u in t.fetched && Downloaded(st.web, u) ==> u in visited)
    // Only unvisited URLs are downloaded; a URL is downloaded again only after a failed download.
    && (forall i :: 0 <= i < |t.fetched| ==> t.fetched[i] !in st.visited)
    && (forall i, j :: 0 <= i < j < |t.fetched| && t.fetched[i] == t.fetched[j] ==>
          !Downloaded(st.web, t.fetched[i]))
  }

  /** Each saved page went under the first free name for its path: every name
      tried before it was taken, in the starting directory or by an earlier save. */
  ghost predicate NameInv(st: Start, t: Trace)
  {
    && |t.probes| == |t.saved| == |t.names|
    && (forall i :: 0 <= i < |t.saved| ==> t.names[i] == Candidate(SafeName(t.saved[i].path), t.probes[i]))
    && (forall i, j :: 0 <= i < |t.saved| && 0 <= j < t.probes[i] ==>
          Candidate(SafeName(t.saved[i].path), j) in st.files ||
          Candidate(SafeName(t.saved[i].path), j) in t.names[..i])
  }

  /** Saved pages and the files written for them. */
  ghost predicate SaveInv(st: Start, visited: set<Url>, files: map<string, string>, t: Trace)
  {
    // Each newly visited page is saved once, exactly when its text is not empty.
    && (forall u :: u in visited && u !in st.visited ==>
          Downloaded(st.web, u) && (u in t.saved <==> PageText(st.web, u) != ""))
    && (forall i :: 0 <= i < |t.saved| ==> t.saved[i] in visited && t.saved[i] !in st.visited)
    && (forall i, j :: 0 <= i < j < |t.saved| ==> t.saved[i] != t.saved[j])
    // Saving adds one new file per saved page, holding its text, and changes no other file.
    && SavedAs(st.web, st.files, files, t.saved, t.names)
  }

  /** The frontier. */
  ghost predicate FrontierInv(st: Start, visited: set<Url>, toVisit: set<Url>, t: Trace)
  {
    // The frontier holds the root or admissible links without a fragment.
    && (forall u :: u in toVisit ==> u == st.root || (u.fragment == "" && IsValidUrl(st.baseDomain, u)))
    // Links enter the frontier only while unvisited, so a visited URL can be in
    // it only as a root that was visited before the crawl started.
    && (toVisit !! visited || toVisit == {st.root})
    && (st.root !in st.visited ==> t.skipped == 0 && toVisit !! visited)
    // Nothing found is lost: the root and every link of a page visited by this
    // crawl is visited, still in the frontier, or was attempted.
    && (st.root in visited || st.root in toVisit || st.root in t.fetched)
    && (forall u, l :: u in visited && u !in st.visited && Downloaded(st.web, u) && l in PageLinks(st, u) ==>
          l in visited || l in toVisit || l in t.fetched)
  }

  /** Where downloads come from: each URL attempted, and each URL in the
      frontier, is the root or a link on a page downloaded earlier. */
  ghost predicate OriginInv(st: Start, toVisit: set<Url>, t: Trace)
  {
    && (forall i :: 0 <= i < |t.fetched| ==> t.fetched[i] == st.root || LinkedFrom(st, t.fetched[..i], t.fetched[i]))
    && (forall u :: u in toVisit ==> u == st.root || LinkedFrom(st, t.fetched, u))
  }

  /** What holds of the crawl state (visited set, files, frontier) at every
      test of the loop condition, and hence when the loop ends. */
  ghost predicate CrawlInv(st: Start, visited: set<Url>, files: map<string, string>,
                           toVisit: set<Url>, t: Trace)
  {
    && VisitInv(st, visited, t) && SaveInv(st, visited, files, t) && NameInv(st, t)
    && FrontierInv(st, visited, toVisit, t) && OriginInv(st, toVisit, t)
  }

  lemma LinkedFromExtend(st: Start, pages: seq<Url>, c: Url, u: Url)
    requires LinkedFrom(st, pages, u)
    ensures LinkedFrom(st, pages + [c], u)
  {
    var j :| 0 <= j < |pages| && Downloaded(st.web, pages[j]) && u in PageLinks(st, pages[j]);
    assert (pages + [c])[j] == pages[j];
  }

  lemma LinkedFromLast(st: Start, pages: seq<Url>, c: Url, u: Url)
    requires Downloaded(st.web, c) && u in PageLinks(st, c)
    ensures LinkedFrom(st, pages + [c], u)
  {
    assert (pages + [c])[|pages|] == c;
  }

  /** Downloading a URL taken from the frontier, and enqueuing only links of
      that page, keeps every URL traceable to the root. */
  lemma FetchKeepsOrigin(st: Start, toVisit: set<Url>, t: Trace, current: Url,
                         links: set<Url>, toVisit': set<Url>, t': Trace)
    requires OriginInv(st, toVisit, t)
    requires current in toVisit && t'.fetched == t.fetched + [current]
    requires links != {} ==> Downloaded(st.web, current) && links <= PageLinks(st, current)
    requires toVisit' <= toVisit + links
    ensures OriginInv(st, toVisit', t')
  {
    var f, f' := t.fetched, t'.fetched;
    forall i | 0 <= i < |f'|
      ensures f'[i] == st.root || LinkedFrom(st, f'[..i], f'[i])
    {
      if i < |f| {
        assert f'[..i] == f[..i] && f'[i] == f[i];
      } else {
        assert f'[..i] == f;
      }
    }
    forall u | u in toVisit' && u != st.root
      ensures LinkedFrom(st, f', u)
    {
      if u in toVisit {
        LinkedFromExtend(st, f, current, u);
      } else {
        assert u in links;
        LinkedFromLast(st, f, current, u);
      }
    }
  }

  /** Popping a URL that is already visited changes nothing but the frontier. */
  lemma SkipKeepsInv(st: Start, visited: set<Url>, files: map<string, string>,
                     toVisit: set<Url>, t: Trace, current: Url)
    requires CrawlInv(st, visited, files, toVisit, t)
    requires current in toVisit && current in visited
    ensures CrawlInv(st, visited, files, toVisit - {current}, t.(skipped := t.skipped + 1))
  {
  }

  /** A failed or empty download leaves the URL unvisited and is only recorded. */
  lemma FailedDownloadKeepsInv(st: Start, visited: set<Url>, files: map<string, string>,
                               toVisit: set<Url>, t: Trace, current: Url)
    requires CrawlInv(st, visited, files, toVisit, t)
    requires current in toVisit && current !in visited && !Downloaded(st.web, current)
    requires |visited| < st.maxPages
    ensures CrawlInv(st, visited, files, toVisit - {current}, t.(fetched := t.fetched + [current]))
  {
    var t' := t.(fetched := t.fetched + [current]);
    FailKeepsVisitInv(st, visited, t, current);
    FailKeepsFrontierInv(st, visited, toVisit, t, current);
    FetchKeepsOrigin(st, toVisit, t, current, {}, toVisit - {current}, t');
    assert SaveInv(st, visited, files, t') && NameInv(st, t');
  }

  lemma FailKeepsVisitInv(st: Start, visited: set<Url>, t: Trace, current: Url)
    requires VisitInv(st, visited, t)
    requires current !in visited && !Downloaded(st.web, current) && |visited| < st.maxPages
    ensures VisitInv(st, visited, t.(fetched := t.fetched + [current]))
  {
    SubsetCardinality(st.visited, visited);
  }

  lemma FailKeepsFrontierInv(st: Start, visited: set<Url>, toVisit: set<Url>, t: Trace, current: Url)
    requires FrontierInv(st, visited, toVisit, t)
    ensures FrontierInv(st, visited, toVisit - {current}, t.(fetched := t.fetched + [current]))
  {
  }

  /** A successful download below the budget marks the page visited, saves its
      text under the first free name when there is text, and enqueues its
      unvisited links. */
  lemma VisitKeepsInv(st: Start, visited: set<Url>, files: map<string, string>,
                      toVisit: set<Url>, t: Trace, current: Url,
                      newLinks: set<Url>, name: Option<string>, k: nat, files': map<string, string>)
    requires CrawlInv(st, visited, files, toVisit, t)
    requires current in toVisit && current !in visited && Downloaded(st.web, current)
    requires |visited| < st.maxPages
    requires newLinks == PageLinks(st, current)
    requires forall l :: l in newLinks ==> l.fragment == "" && IsValidUrl(st.baseDomain, l)
    requires PageText(st.web, current) == "" ==> name == None && files' == files
    requires PageText(st.web, current) != "" ==>
               name.Some? && name.value !in files && files' == files[name.value := PageText(st.web, current)]
    requires name.Some? ==> name.value == Candidate(SafeName(current.path), k) &&
                            forall j :: 0 <= j < k ==> Candidate(SafeName(current.path), j) in files
    ensures CrawlInv(st, visited + {current}, files',
                     (toVisit - {current}) + (set l | l in newLinks && l !in visited + {current}),
                     AfterVisit(t, current, name, k))
  {
    VisitKeepsRecords(st, visited, files, t, current, name, k, files');
    VisitKeepsLinks(st, visited, toVisit, t, current, newLinks, name, k);
  }

  /** The visited set, the saved files and their names after a successful visit. */
  lemma VisitKeepsRecords(st: Start, visited: set<Url>, files: map<string, string>, t: Trace,
                          current: Url, name: Option<string>, k: nat, files': map<string, string>)
    requires VisitInv(st, visited, t) && SaveInv(st, visited, files, t) && NameInv(st, t)
    requires current !in visited && Downloaded(st.web, current) && |visited| < st.maxPages
    requires PageText(st.web, current) == "" ==> name == None && files' == files
    requires PageText(st.web, current) != "" ==>
               name.Some? && name.value !in files && files' == files[name.value := PageText(st.web, current)]
    requires name.Some? ==> name.value == Candidate(SafeName(current.path), k) &&
                            forall j :: 0 <= j < k ==> Candidate(SafeName(current.path), j) in files
    ensures VisitInv(st, visited + {current}, AfterVisit(t, current, name, k))
    ensures SaveInv(st, visited + {current}, files', AfterVisit(t, current, name, k))
    ensures NameInv(st, AfterVisit(t, current, name, k))
  {
    VisitKeepsNameInv(st, files, t, current, name, k);
    VisitKeepsSaveInv(st, visited, files, t, current, name, k, files');
    VisitKeepsVisitInv(st, visited, t, current, name, k);
  }

  /** The frontier and the origin of every URL after a successful visit. */
  lemma VisitKeepsLinks(st: Start, visited: set<Url>, toVisit: set<Url>, t: Trace,
                        current: Url, newLinks: set<Url>, name: Option<string>, k: nat)
    requires VisitInv(st, visited, t) && FrontierInv(st, visited, toVisit, t) && OriginInv(st, toVisit, t)
    requires current in toVisit && current !in visited && Downloaded(st.web, current)
    requires newLinks == PageLinks(st, current)
    requires forall l :: l in newLinks ==> l.fragment == "" && IsValidUrl(st.baseDomain, l)
    ensures FrontierInv(st, visited + {current},
                        (toVisit - {current}) + (set l | l in newLinks && l !in visited + {current}),
                        AfterVisit(t, current, name, k))
    ensures OriginInv(st, (toVisit - {current}) + (set l | l in newLinks && l !in visited + {current}),
                      AfterVisit(t, current, name, k))
  {
    var toVisit' := (toVisit - {current}) + (set l | l in newLinks && l !in visited + {current});
    VisitKeepsFrontierInv(st, visited, toVisit, t, current, newLinks, name, k);
    FetchKeepsOrigin(st, toVisit, t, current, newLinks, toVisit', AfterVisit(t, current, name, k));
  }

  lemma VisitKeepsVisitInv(st: Start, visited: set<Url>, t: Trace, current: Url, name: Option<string>, k: nat)
    requires VisitInv(st, visited, t)
    requires current !in visited && Downloaded(st.web, current) && |visited| < st.maxPages
    ensures VisitInv(st, visited + {current}, AfterVisit(t, current, name, k))
  {
    SubsetCardinality(st.visited, visited);
  }

  lemma VisitKeepsSaveInv(st: Start, visited: set<Url>, files: map<string, string>, t: Trace,
                          current: Url, name: Option<string>, k: nat, files': map<string, string>)
    requires st.visited <= visited && SaveInv(st, visited, files, t)
    requires current !in visited && Downloaded(st.web, current)
    requires PageText(st.web, current) == "" ==> name == None && files' == files
    requires PageText(st.web, current) != "" ==>
               name.Some? && name.value !in files && files' == files[name.value := PageText(st.web, current)]
    ensures SaveInv(st, visited + {current}, files', AfterVisit(t, current, name, k))
  {
    if name.Some? {
      SavedAsStep(st.web, st.files, files, t.saved, t.names, current, name.value);
    }
  }

  lemma VisitKeepsNameInv(st: Start, files: map<string, string>, t: Trace,
                          current: Url, name: Option<string>, k: nat)
    requires NameInv(st, t) && AddedFiles(st.files, files, t.names)
    requires name.Some? ==> name.value == Candidate(SafeName(current.path), k) &&
                            forall j :: 0 <= j < k ==> Candidate(SafeName(current.path), j) in files
    ensures NameInv(st, AfterVisit(t, current, name, k))
  {
    if name.Some? {
      var t' := AfterVisit(t, current, name, k);
      forall i, j | 0 <= i < |t'.saved| && 0 <= j < t'.probes[i]
        ensures Candidate(SafeName(t'.saved[i].path), j) in st.files ||
                Candidate(SafeName(t'.saved[i].path), j) in t'.names[..i]
      {
        if i < |t.saved| {
          assert t'.names[..i] == t.names[..i];
          assert t'.saved[i] == t.saved[i] && t'.probes[i] == t.probes[i];
        } else {
          assert t'.names[..i] == t.names;
        }
      }
    }
  }

  lemma VisitKeepsFrontierInv(st: Start, visited: set<Url>, toVisit: set<Url>, t: Trace,
                              current: Url, newLinks: set<Url>, name: Option<string>, k: nat)
    requires VisitInv(st, visited, t) && FrontierInv(st, visited, toVisit, t)
    requires current in toVisit && current !in visited && Downloaded(st.web, current)
    requires newLinks == PageLinks(st, current)
    requires forall l :: l in newLinks ==> l.fragment == "" && IsValidUrl(st.baseDomain, l)
    ensures FrontierInv(st, visited + {current},
                        (toVisit - {current}) + (set l | l in newLinks && l !in visited + {current}),
                        AfterVisit(t, current, name, k))
  {
  }

  /** Before the first pass the frontier holds only the root and nothing has
      been downloaded, saved or skipped. */
  lemma StartInv(st: Start)
    ensures CrawlInv(st, st.visited, st.files, {st.root}, Trace([], [], [], [], 0))
  {
  }

  /** The crawl only follows links: its first download is the root, and every
      page it visited other than the root is an admissible URL without a
      fragment that appeared as a link on a page downloaded before it. */
  lemma CrawlFollowsLinks(st: Start, visited: set<Url>, files: map<string, string>,
                          toVisit: set<Url>, t: Trace)
    requires CrawlInv(st, visited, files, toVisit, t)
    ensures |t.fetched| > 0 ==> t.fetched[0] == st.root
    ensures forall u :: u in visited && u !in st.visited && u != st.root ==>
              && u.fragment == "" && IsValidUrl(st.baseDomain, u)
              && exists i :: 0 <= i < |t.fetched| && t.fetched[i] == u && LinkedFrom(st, t.fetched[..i], u)
  {
    if |t.fetched| > 0 {
      assert !LinkedFrom(st, t.fetched[..0], t.fetched[0]);
    }
    forall u | u in visited && u !in st.visited && u != st.root
      ensures u.fragment == "" && IsValidUrl(st.baseDomain, u)
      ensures exists i :: 0 <= i < |t.fetched| && t.fetched[i] == u && LinkedFrom(st, t.fetched[..i], u)
    {
      var i :| 0 <= i < |t.fetched| && t.fetched[i] == u;
      var pages := t.fetched[..i];
      var j :| 0 <= j < |pages| && Downloaded(st.web, pages[j]) && u in PageLinks(st, pages[j]);
      LinkSetAdmissible(st.baseDomain, st.web.anchors(st.web.download(pages[j]).value, pages[j]));
    }
  }

  /** When the frontier runs dry, the crawl has followed everything it found:
      the root and each link of each page it visited is visited, or was
      downloaded without result. */
  lemma ExhaustedFrontierIsClosed(st: Start, visited: set<Url>, files: map<string, string>, t: Trace)
    requires CrawlInv(st, visited, files, {}, t)
    ensures st.root in visited || (st.root in t.fetched && !Downloaded(st.web, st.root))
    ensures forall u, l :: u in visited && u !in st.visited && Downloaded(st.web, u) && l in PageLinks(st, u) ==>
              l in visited || (l in t.fetched && !Downloaded(st.web, l))
  {
  }

  /** Starting from nothing visited, a crawl whose downloads all return a body
      and whose root links to at least `maxPages` admissible pages visits
      exactly `maxPages` pages. */
  lemma BudgetReached(st: Start, visited: set<Url>, files: map<string, string>, rest: set<Url>, t: Trace)
    requires CrawlInv(st, visited, files, rest, t)
    requires rest == {} || |visited| >= st.maxPages
    requires st.visited == {} && st.maxPages >= 0
    requires forall u :: Downloaded(st.web, u)
    requires |PageLinks(st, st.root)| >= st.maxPages
    ensures |visited| == st.maxPages
  {
    if rest == {} {
      ExhaustedFrontierIsClosed(st, visited, files, t);
      assert st.root in visited;
      assert PageLinks(st, st.root) <= visited;
      SubsetCardinality(PageLinks(st, st.root), visited);
    }
  }

  /** The output directory on disk: file name to file contents. */
  class OutputDirectory {
    const path: string
    var files: map<string, string>

    constructor (path: string, existing: map<string, string>)
      ensures this.path == path && files == existing
    {
      this.path := path;
      files := existing;
    }
  }

  class WebsiteTextExtractor {
    const rootUrl: string
    const root: Url
    const baseDomain: string
    const outputDir: string
    const maxPages: int
    const out: OutputDirectory
    var visitedUrls: set<Url>

    /** `root` is the parsed form of `rootUrl`; `existing` is what the output
        directory already holds (it is created only if missing). The
        `outputDir` argument is ignored: the directory name is always derived
        from the root URL. */
    constructor (rootUrl: string, root: Url, existing: map<string, string>,
                 outputDir: string := "extracted_text", maxPages: int := 100)
      ensures this.rootUrl == rootUrl && this.root == root && baseDomain == root.netloc
      ensures this.outputDir == OutputDirName(rootUrl) && out.path == this.outputDir
      ensures fresh(out) && out.files == existing
      ensures this.maxPages == maxPages && visitedUrls == {}
    {
      var dir := OutputDirName(rootUrl);
      this.rootUrl := rootUrl;
      this.root := root;
      baseDomain := root.netloc;
      this.outputDir := dir;
      this.maxPages := maxPages;
      out := new OutputDirectory(dir, existing);
      visitedUrls := {};
    }

    /** `save_text`: writes `text` under the first of `safe.md`, `safe_1.md`,
        `safe_2.md`, ... that does not exist yet, `safe` being the base name of
        the URL's path. Returns that name and its position `k` in the sequence
        of names tried. */
    method SaveText(url: Url, text: string) returns (filename: string, ghost k: nat)
      modifies out
      ensures filename == Candidate(SafeName(url.path), k)
      ensures filename !in old(out.files)
      ensures forall j :: 0 <= j < k ==> Candidate(SafeName(url.path), j) in old(out.files)
      ensures out.files == old(out.files)[filename := text]
    {
      var safe := SafeName(url.path);
      var dir := out.files;
      var existing := dir.Keys;
      filename := Candidate(safe, 0);
      var counter := 1;
      while filename in existing
        invariant counter >= 1 && filename == Candidate(safe, counter - 1)
        invariant Tried(safe, counter - 1) <= existing && |Tried(safe, counter - 1)| == counter - 1
        decreases |existing| - (counter - 1)
      {
        TriedGrows(safe, counter - 1, existing);
        filename := Candidate(safe, counter);
        counter := counter + 1;
      }
      k := counter - 1;
      assert forall j :: 0 <= j < k ==> Candidate(safe, j) in Tried(safe, k);
      out.files := dir[filename := text];
    }

    /** The work done for a page whose download returned a body: extract its
        text and save it when there is any, mark the page visited, and collect
        the admissible links it holds. Returns the file name used, if any, and
        how many taken names were tried before it. */
    method VisitPage(web: Web, current: Url, content: string)
      returns (newLinks: set<Url>, ghost name: Option<string>, ghost k: nat)
      requires current !in visitedUrls && Downloaded(web, current)
      requires content == web.download(current).value
      modifies this, out
      ensures visitedUrls == old(visitedUrls) + {current}
      ensures newLinks == LinkSet(baseDomain, web.anchors(content, current))
      ensures forall l :: l in newLinks ==> l.fragment == "" && IsValidUrl(baseDomain, l)
      ensures PageText(web, current) == "" ==> name == None && out.files == old(out.files)
      ensures PageText(web, current) != "" ==>
                && name.Some? && name.value !in old(out.files)
                && out.files == old(out.files)[name.value := PageText(web, current)]
      // The name is the first of the names tried for the page's path that was free.
      ensures name.Some? ==>
                && name.value == Candidate(SafeName(current.path), k)
                && forall j :: 0 <= j < k ==> Candidate(SafeName(current.path), j) in old(out.files)
    {
      var text := ExtractCleanText(web.elements(content));
      name, k := None, 0;
      if text != "" {
        var filename;
        filename, k := SaveText(current, text);
        name := Some(filename);
      }
      visitedUrls := visitedUrls + {current};
      newLinks := ExtractLinks(baseDomain, web.anchors(content, current));
    }

    /** One pass of the loop of `extract_website_text`: pop a URL `current`
        from the non-empty frontier; skip it if visited; otherwise download it
        and, if that returned a body, visit the page and enqueue its unvisited
        links. */
    method CrawlStep(ghost st: Start, web: Web, toVisit: set<Url>, ghost trace: Trace)
      returns (toVisit': set<Url>, ghost trace': Trace, current: Url)
      requires st.web == web && st.root == root && st.baseDomain == baseDomain && st.maxPages == maxPages
      requires toVisit != {} && |visitedUrls| < maxPages
      requires CrawlInv(st, visitedUrls, out.files, toVisit, trace)
      modifies this, out
      ensures CrawlInv(st, visitedUrls, out.files, toVisit', trace')
      ensures current in toVisit
      // Progress: one more page visited, or a smaller frontier and nothing visited.
      ensures || |visitedUrls| == |old(visitedUrls)| + 1
              || (visitedUrls == old(visitedUrls) && |toVisit'| == |toVisit| - 1)
      // Already visited: only the frontier changes.
      ensures current in old(visitedUrls) ==>
                && visitedUrls == old(visitedUrls) && out.files == old(out.files)
                && toVisit' == toVisit - {current} && trace' == trace.(skipped := trace.skipped + 1)
      // Download without a body: only the frontier changes, and the attempt is recorded.
      ensures current !in old(visitedUrls) && !Downloaded(web, current) ==>
                && visitedUrls == old(visitedUrls) && out.files == old(out.files)
                && toVisit' == toVisit - {current} && trace' == trace.(fetched := trace.fetched + [current])
      // Download with a body: the page is visited, and its unvisited links join the frontier.
      ensures current !in old(visitedUrls) && Downloaded(web, current) ==>
                && visitedUrls == old(visitedUrls) + {current}
                && toVisit' == (toVisit - {current}) + (set l | l in PageLinks(st, current) && l !in visitedUrls)
                && trace'.fetched == trace.fetched + [current] && trace'.skipped == trace.skipped
                && trace.saved <= trace'.saved && trace.names <= trace'.names
    {
      current :| current in toVisit;
      if current in visitedUrls {
        SkipKeepsInv(st, visitedUrls, out.files, toVisit, trace, current);
        toVisit' := toVisit - {current};
        assert |toVisit'| == |toVisit| - 1;
        trace' := trace.(skipped := trace.skipped + 1);
      } else {
        var content := web.download(current);
        if content.Some? && content.value != "" {
          ghost var visitedBefore, filesBefore := visitedUrls, out.files;
          var newLinks, name, k := VisitPage(web, current, content.value);
          assert |visitedUrls| == |visitedBefore| + 1;
          assert newLinks == PageLinks(st, current);
          VisitKeepsInv(st, visitedBefore, filesBefore, toVisit, trace, current, newLinks, name, k, out.files);
          toVisit' := (toVisit - {current}) + (set l | l in newLinks && l !in visitedUrls);
          trace' := AfterVisit(trace, current, name, k);
        } else {
          FailedDownloadKeepsInv(st, visitedUrls, out.files, toVisit, trace, current);
          toVisit' := toVisit - {current};
          assert |toVisit'| == |toVisit| - 1;
          trace' := trace.(fetched := trace.fetched + [current]);
        }
      }
    }

    /** `extract_website_text`. Returns, for the proof only, what is left in
        the frontier and the trace of the run. */
    method ExtractWebsiteText(web: Web) returns (ghost rest: set<Url>, ghost trace: Trace)
      modifies this, out
      // The loop stops only on an empty frontier or a full page budget.
      ensures rest == {} || |visitedUrls| >= maxPages
      // Everything else it promises, stated on the start and end states.
      ensures CrawlInv(Start(web, root, baseDomain, maxPages, old(visitedUrls), old(out.files)),
                       visitedUrls, out.files, rest, trace)
      // Only the root and same-host links without a fragment are ever visited.
      ensures forall u :: u in visitedUrls && u !in old(visitedUrls) && u != root ==>
                u.fragment == "" && IsValidUrl(baseDomain, u)
    {
      ghost var st := Start(web, root, baseDomain, maxPages, visitedUrls, out.files);
      var toVisit := {root};
      trace := Trace([], [], [], [], 0);
      StartInv(st);
      while toVisit != {} && |visitedUrls| < maxPages
        invariant CrawlInv(st, visitedUrls, out.files, toVisit, trace)
        decreases maxPages - |visitedUrls|, |toVisit|
      {
        var current;
        toVisit, trace, current := CrawlStep(st, web, toVisit, trace);
      }
      rest := toVisit;
      CrawlFollowsLinks(st, visitedUrls, out.files, rest, trace);
    }
  }
}
