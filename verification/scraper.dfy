/**
 The exam-paper scraper: log in to the library portal if it shows a login
 form, fetch the listing for one module, keep the PDF links whose file name
 mentions an allowed year, and download each into
 `{output}/{module}/papers/{file name}`, reporting progress once per link.

 The portal's answers are inputs (`Portal`), the requests the scraper sends
 are recorded (`Request`), and the disk is a value (`FileSystem`).
 */
module Scraper {
  import opened Text
  import opened StringOrder
  import opened Decimal
  import opened Seqs

  datatype Option<T> = None | Some(value: T)

  newtype byte = x: int | 0 <= x < 256

  // ---------------------------------------------------------------------
  // Construction and the allowed years

  /** One element of the optional `allowed_years` argument: an int or a string. */
  datatype YearValue = IntYear(n: int) | TextYear(text: string)

  /** Python's `str(y)` of an argument element. */
  function YearText(y: YearValue): (t: string)
    ensures y.TextYear? ==> t == y.text
    ensures y.IntYear? ==>
      |t| >= 1 && (t[0] == '-' || IsDigit(t[0])) && (forall k :: 1 <= k < |t| ==> IsDigit(t[k]))
      && ParseInt(t) == y.n
    ensures y.IntYear? ==> (t[0] == '-' <==> y.n < 0)
    ensures y.IntYear? ==> (t[0] == '0' ==> t == "0") && (y.n < 0 ==> t[1] != '0')
  {
    match y
    case IntYear(n) =>
      IntToStringRoundTrip(n);
      IntToString(n)
    case TextYear(t) => t
  }

  /** The default years are `range(2020, 2026)`. */
  const DefaultFirstYear: int := 2020
  const DefaultEndYear: int := 2026

  /**
   The scraper's own state: the allowed-year strings, and whether the
   caller has attached a progress callback.
   */
  datatype Scraper = Scraper(allowedYears: set<string>, hasProgressCallback: bool)

  /** `Scraper(allowed_years=None)`: the years as strings, with no callback yet. */
  function Init(allowedYears: Option<seq<YearValue>>): (s: Scraper)
    ensures !s.hasProgressCallback
    ensures allowedYears.Some? ==>
      forall k :: 0 <= k < |allowedYears.value| ==> YearText(allowedYears.value[k]) in s.allowedYears
    ensures allowedYears.Some? ==>
      forall y :: y in s.allowedYears ==> exists k :: 0 <= k < |allowedYears.value| && YearText(allowedYears.value[k]) == y
  {
    match allowedYears
    case None =>
      Scraper(set n | DefaultFirstYear <= n < DefaultEndYear :: IntToString(n), false)
    case Some(ys) =>
      Scraper(set k | 0 <= k < |ys| :: YearText(ys[k]), false)
  }

  /** The caller assigns `scraper.progress_callback`. */
  function AttachProgressCallback(s: Scraper): (s': Scraper)
    ensures s'.hasProgressCallback
    ensures s'.allowedYears == s.allowedYears
  {
    s.(hasProgressCallback := true)
  }

  // ---------------------------------------------------------------------
  // The portal: what the scraper sends and what it receives

  const PortalUrl: string := "https://www.maynoothuniversity.ie/library/exam-papers"
  const LoginFormId: string := "user_login"

  /** The login POST body: `name`, `pass`, `form_id` and `form_build_id`. */
  datatype LoginForm = LoginForm(name: string, pass: string, formId: string, formBuildId: string)

  datatype Request =
    | GetPage(url: string)
    | PostLogin(url: string, form: LoginForm)
    | GetListing(url: string, codeValue1: string)
    | GetPaper(url: string)

  /** The listing response: its status and the `href` of every anchor on it, in page order. */
  datatype Listing = Listing(status: int, hrefs: seq<string>)

  datatype PaperResponse = PaperResponse(status: int, content: seq<byte>)

  /**
   The portal as the scraper sees it: the `form_build_id` input of the
   landing page if there is one, the status of the login POST, the listing
   response, and the response to a GET of each paper URL.
   */
  datatype Portal = Portal(
    formBuildId: Option<string>,
    loginStatus: int,
    listing: Listing,
    papers: string -> PaperResponse)

  // ---------------------------------------------------------------------
  // The filesystem

  datatype FileSystem = FileSystem(dirs: set<string>, files: map<string, seq<byte>>)

  /** `os.path.exists`. */
  predicate PathExists(fs: FileSystem, p: string)
  {
    p in fs.dirs || p in fs.files
  }

  /** `os.path.isfile`. */
  predicate IsFile(fs: FileSystem, p: string)
  {
    p in fs.files
  }

  /** `if not os.path.exists(p): os.makedirs(p)`. */
  function MakeDirsIfMissing(fs: FileSystem, p: string): (fs': FileSystem)
    ensures PathExists(fs', p)
    ensures fs'.files == fs.files
    ensures fs.dirs <= fs'.dirs <= fs.dirs + {p}
    ensures p in fs.files && p !in fs.dirs ==> p !in fs'.dirs
  {
    if PathExists(fs, p) then fs else fs.(dirs := fs.dirs + {p})
  }

  /** `open(path, "wb")` succeeds: the directory exists and `path` is not itself a directory. */
  predicate CanCreateFile(fs: FileSystem, dir: string, path: string)
  {
    dir in fs.dirs && path !in fs.dirs
  }

  /**
   How the three checks relate: `isfile` implies `exists`, a missing path is
   neither a file nor a directory, and `open` succeeds only when the directory
   exists and the target is missing or a file.
   */
  lemma PathChecks(fs: FileSystem, dir: string, path: string)
    ensures IsFile(fs, path) ==> PathExists(fs, path)
    ensures !PathExists(fs, path) ==> !IsFile(fs, path) && path !in fs.dirs
    ensures CanCreateFile(fs, dir, path) ==> PathExists(fs, dir)
    ensures CanCreateFile(fs, dir, path) ==> !PathExists(fs, path) || IsFile(fs, path)
  {
  }

  // ---------------------------------------------------------------------
  // Paths

  /** `f"{output_folder}/{module_code}/papers"`. */
  function PapersDir(outputFolder: string, moduleCode: string): string
  {
    outputFolder + "/" + moduleCode + "/papers"
  }

  /**
   The papers directory lies under the output folder, ends in "/papers", and
   two module codes share a directory only if they are the same code.
   */
  lemma PapersDirShape(outputFolder: string, moduleCode: string, otherCode: string)
    ensures StartsWith(PapersDir(outputFolder, moduleCode), outputFolder + "/")
    ensures EndsWith(PapersDir(outputFolder, moduleCode), "/papers")
    ensures PapersDir(outputFolder, moduleCode) == PapersDir(outputFolder, otherCode) ==> moduleCode == otherCode
  {
    var d1, d2 := PapersDir(outputFolder, moduleCode), PapersDir(outputFolder, otherCode);
    if d1 == d2 {
      var n := |outputFolder| + 1;
      assert |moduleCode| == |otherCode|;
      assert moduleCode == d1[n..n + |moduleCode|];
      assert otherCode == d2[n..n + |otherCode|];
    }
  }

  /** `f"{output_folder}/{module_code}/papers/{url.split('/')[-1]}"`. */
  function PaperPath(url: string, outputFolder: string, moduleCode: string): (p: string)
    ensures p == PapersDir(outputFolder, moduleCode) + "/" + LastSegment(url)
    ensures LastSegment(p) == LastSegment(url)
  {
    LastSegmentOfPath(PapersDir(outputFolder, moduleCode), LastSegment(url));
    outputFolder + "/" + moduleCode + "/papers/" + LastSegment(url)
  }

  // ---------------------------------------------------------------------
  // Link extraction and the year filter

  /** `href.endswith(".pdf")`, case-sensitive. */
  predicate IsPdfLink(href: string)
  {
    EndsWith(href, ".pdf")
  }

  /**
   A PDF link names a file that ends in ".pdf" (the last '/' cannot fall
   inside the suffix), and the test is case-sensitive: ".PDF" is no PDF link.
   */
  lemma PdfLinkFileName(href: string)
    ensures IsPdfLink(href) ==> EndsWith(LastSegment(href), ".pdf")
    ensures EndsWith(href, ".PDF") ==> !IsPdfLink(href)
  {
    if IsPdfLink(href) {
      PdfFileName(href);
    }
  }

  lemma PdfFileName(href: string)
    requires EndsWith(href, ".pdf")
    ensures EndsWith(LastSegment(href), ".pdf")
  {
    var r := LastSegment(href);
    LastSegmentIsFinalPart(href);
    assert r[|r| - 4..] == href[|href| - 4..];
  }

  /** The hrefs that end in ".pdf", in page order, duplicates kept. */
  function PdfLinks(hrefs: seq<string>): (papers: seq<string>)
    ensures forall k :: 0 <= k < |papers| ==> IsPdfLink(papers[k])
    ensures forall h :: multiset(papers)[h] == if IsPdfLink(h) then multiset(hrefs)[h] else 0
    ensures IsSubsequence(papers, hrefs)
  {
    Filter(hrefs, IsPdfLink)
  }

  /** Some allowed year is a raw substring of the link's file name. */
  predicate MentionsAllowedYear(paper: string, years: set<string>)
  {
    exists y :: y in years && Contains(LastSegment(paper), y)
  }

  /**
   A link mentions an allowed year exactly when some allowed year occurs in
   its file name; no year set mentions nothing, and the empty string is in
   every file name.
   */
  lemma MentionsAllowedYearIff(paper: string, years: set<string>)
    ensures MentionsAllowedYear(paper, years) <==> exists y, i :: y in years && OccursAt(y, LastSegment(paper), i)
    ensures years == {} ==> !MentionsAllowedYear(paper, years)
    ensures "" in years ==> MentionsAllowedYear(paper, years)
  {
    ContainsEachIffOccurs(LastSegment(paper), years);
    if "" in years {
      assert Contains(LastSegment(paper), "");
    }
  }

  /**
   The papers whose file name mentions an allowed year, in order. The inner
   loop over the years stops at the first match, so each paper is kept at
   most once per occurrence.
   */
  function FilterByYear(papers: seq<string>, years: set<string>): (kept: seq<string>)
    ensures forall k :: 0 <= k < |kept| ==> MentionsAllowedYear(kept[k], years)
    ensures forall p :: multiset(kept)[p] == if MentionsAllowedYear(p, years) then multiset(papers)[p] else 0
    ensures IsSubsequence(kept, papers)
  {
    Filter(papers, p => MentionsAllowedYear(p, years))
  }

  // ---------------------------------------------------------------------
  // Downloading one paper

  datatype DownloadOutcome =
    | Saved
    | AlreadyPresent
    | HttpFailure(status: int)
      /** `open` raised: the thread ends before it reports progress. */
    | WriteFailed

  /** How many times the outcome's branch calls `progress_update`. */
  function ProgressTicks(o: DownloadOutcome): nat
  {
    if o.WriteFailed? then 0 else 1
  }

  datatype Download = Download(fs: FileSystem, outcome: DownloadOutcome)

  /**
   `download_paper`: on a 200 response, write the body to the paper's path
   unless a file is already there; on any other status write nothing.
   */
  function DownloadPaper(fs: FileSystem, url: string, outputFolder: string, moduleCode: string,
                         response: PaperResponse): (d: Download)
    ensures d.fs.dirs == fs.dirs
    ensures forall p :: p in fs.files ==> p in d.fs.files && d.fs.files[p] == fs.files[p]
    ensures forall p :: p in d.fs.files && p !in fs.files ==>
      p == PaperPath(url, outputFolder, moduleCode) && d.fs.files[p] == response.content
    ensures d.outcome == Saved <==>
      response.status == 200 && !IsFile(fs, PaperPath(url, outputFolder, moduleCode))
      && CanCreateFile(fs, PapersDir(outputFolder, moduleCode), PaperPath(url, outputFolder, moduleCode))
    ensures d.outcome == Saved ==>
      (PaperPath(url, outputFolder, moduleCode) in d.fs.files
       && d.fs.files[PaperPath(url, outputFolder, moduleCode)] == response.content)
    ensures d.outcome != Saved ==> d.fs == fs
    ensures response.status != 200 ==> d.outcome == HttpFailure(response.status)
    ensures response.status == 200 && IsFile(fs, PaperPath(url, outputFolder, moduleCode)) ==> d.outcome == AlreadyPresent
    ensures ProgressTicks(d.outcome) == 0 <==>
      response.status == 200 && !IsFile(fs, PaperPath(url, outputFolder, moduleCode))
      && !CanCreateFile(fs, PapersDir(outputFolder, moduleCode), PaperPath(url, outputFolder, moduleCode))
  {
    var path := PaperPath(url, outputFolder, moduleCode);
    if response.status == 200 then
      if IsFile(fs, path) then Download(fs, AlreadyPresent)
      else if CanCreateFile(fs, PapersDir(outputFolder, moduleCode), path) then
        Download(fs.(files := fs.files[path := response.content]), Saved)
      else Download(fs, WriteFailed)
    else Download(fs, HttpFailure(response.status))
  }

  // ---------------------------------------------------------------------
  // Downloading every filtered paper, with progress

  datatype ProgressEvent = ProgressEvent(current: nat, total: nat)

  /** The shared counter and the callback invocations made so far. */
  datatype Progress = Progress(count: nat, events: seq<ProgressEvent>)

  /** `progress_update`: bump the counter, then call the callback if one is attached. */
  function ProgressUpdate(p: Progress, total: nat, callback: bool): (p': Progress)
    ensures p'.count == p.count + 1
    ensures callback ==> p'.events == p.events + [ProgressEvent(p'.count, total)]
    ensures !callback ==> p'.events == p.events
  {
    var c := p.count + 1;
    Progress(c, if callback then p.events + [ProgressEvent(c, total)] else p.events)
  }

  datatype Batch = Batch(fs: FileSystem, outcomes: seq<DownloadOutcome>, requests: seq<Request>)

  /**
   The download threads, run one after the other in list order: each GETs
   its URL and runs `download_paper` on the disk the previous ones left.
   */
  function DownloadAll(fs: FileSystem, papers: string -> PaperResponse, urls: seq<string>,
                       outputFolder: string, moduleCode: string): (b: Batch)
    ensures |b.outcomes| == |urls| && |b.requests| == |urls|
    ensures forall k :: 0 <= k < |urls| ==> b.requests[k] == GetPaper(urls[k])
    decreases |urls|
  {
    if |urls| == 0 then Batch(fs, [], [])
    else
      var d := DownloadPaper(fs, urls[0], outputFolder, moduleCode, papers(urls[0]));
      var rest := DownloadAll(d.fs, papers, urls[1..], outputFolder, moduleCode);
      assert forall k :: 1 <= k < |urls| ==> urls[k] == urls[1..][k - 1];
      Batch(rest.fs, [d.outcome] + rest.outcomes, [GetPaper(urls[0])] + rest.requests)
  }

  /** The `progress_update` calls the threads make, one per outcome that reaches one. */
  function Report(progress: Progress, outcomes: seq<DownloadOutcome>, total: nat, callback: bool): Progress
    decreases |outcomes|
  {
    if |outcomes| == 0 then progress
    else
      var progress' := if ProgressTicks(outcomes[0]) == 1 then ProgressUpdate(progress, total, callback) else progress;
      Report(progress', outcomes[1..], total, callback)
  }

  /** The number of `progress_update` calls the outcomes make. */
  function Ticks(outcomes: seq<DownloadOutcome>): (t: nat)
    ensures t <= |outcomes|
    ensures t == |outcomes| <==> forall k :: 0 <= k < |outcomes| ==> !outcomes[k].WriteFailed?
    ensures t == |outcomes| - multiset(outcomes)[WriteFailed]
    decreases |outcomes|
  {
    if |outcomes| == 0 then 0
    else
      assert outcomes == [outcomes[0]] + outcomes[1..];
      ProgressTicks(outcomes[0]) + Ticks(outcomes[1..])
  }

  /** Callback calls `(from + 1, total)`, …, `(from + n, total)`. */
  function CountUp(from: nat, n: nat, total: nat): (events: seq<ProgressEvent>)
    ensures |events| == n
    ensures forall k :: 0 <= k < n ==> events[k] == ProgressEvent(from + k + 1, total)
  {
    seq(n, k requires 0 <= k < n => ProgressEvent(from + k + 1, total))
  }

  // ---------------------------------------------------------------------
  // The whole run

  const InvalidCredentials: string := "Error: Invalid credentials"
  const ListingUnavailable: string := "Error: Unable to fetch exam papers"
  const NoPapersFound: string := "No papers found for this module"

  /** `f"No papers found for this module in years {min(years)}-{max(years)}"`. */
  function NoPapersInYears(years: set<string>): string
    requires years != {}
  {
    NoPapersFound + " in years " + Min(years) + "-" + Max(years)
  }

  /**
   The year-range message extends the plain "no papers" message, so the two
   outcomes can be told apart, and it ends with the greatest allowed year.
   */
  lemma NoPapersInYearsExtends(years: set<string>)
    requires years != {}
    ensures StartsWith(NoPapersInYears(years), NoPapersFound) && NoPapersInYears(years) != NoPapersFound
    ensures EndsWith(NoPapersInYears(years), Max(years))
  {
  }

  /** What `start` hands back: `True`, a message string, or the `ValueError` `min` raises. */
  datatype Outcome = ReturnedTrue | ReturnedMessage(message: string) | RaisedValueError

  datatype Run = Run(outcome: Outcome, requests: seq<Request>, fs: FileSystem, progressEvents: seq<ProgressEvent>)

  /** The login step: fetch the landing page, and POST credentials only if it shows a login form. */
  datatype Auth = Auth(passed: bool, requests: seq<Request>)

  function Authenticate(portal: Portal, username: string, password: string): (a: Auth)
    ensures a.passed <==> portal.formBuildId.None? || portal.loginStatus == 200
    ensures portal.formBuildId.None? ==> a.requests == [GetPage(PortalUrl)]
    ensures portal.formBuildId.Some? ==>
      a.requests == [GetPage(PortalUrl),
                     PostLogin(PortalUrl, LoginForm(username, password, "user_login", portal.formBuildId.value))]
  {
    match portal.formBuildId
    case None => Auth(true, [GetPage(PortalUrl)])
    case Some(token) =>
      Auth(portal.loginStatus == 200,
           [GetPage(PortalUrl), PostLogin(PortalUrl, LoginForm(username, password, LoginFormId, token))])
  }

  /** `Scraper.start` after the login step: the listing, the two filters and the downloads. */
  function FetchAndDownload(scraper: Scraper, portal: Portal, fs: FileSystem,
                            moduleCode: string, outputFolder: string): (run: Run)
    ensures |run.requests| >= 1 && run.requests[0] == GetListing(PortalUrl, moduleCode)
    ensures forall k :: 1 <= k < |run.requests| ==> run.requests[k].GetPaper?
    ensures run.outcome.ReturnedTrue? <==> |run.requests| > 1
  {
    var requests := [GetListing(PortalUrl, moduleCode)];
    if portal.listing.status != 200 then
      Run(ReturnedMessage(ListingUnavailable), requests, fs, [])
    else
      var papers := PdfLinks(portal.listing.hrefs);
      if |papers| == 0 then
        Run(ReturnedMessage(NoPapersFound), requests, fs, [])
      else
        var fs' := MakeDirsIfMissing(fs, PapersDir(outputFolder, moduleCode));
        var filtered := FilterByYear(papers, scraper.allowedYears);
        if |filtered| == 0 then
          if scraper.allowedYears == {} then Run(RaisedValueError, requests, fs', [])
          else Run(ReturnedMessage(NoPapersInYears(scraper.allowedYears)), requests, fs', [])
        else
          DownloadStage(scraper, portal, fs', filtered, moduleCode, outputFolder)
  }

  /**
   The threads of a run that selected some papers: one GET per paper after
   the listing, then `True`.
   */
  function DownloadStage(scraper: Scraper, portal: Portal, fs: FileSystem, filtered: seq<string>,
                         moduleCode: string, outputFolder: string): (run: Run)
    requires |filtered| > 0
    ensures run.outcome == ReturnedTrue
    ensures |run.requests| == 1 + |filtered| && run.requests[0] == GetListing(PortalUrl, moduleCode)
    ensures forall k :: 1 <= k < |run.requests| ==> run.requests[k] == GetPaper(filtered[k - 1])
  {
    var batch := DownloadAll(fs, portal.papers, filtered, outputFolder, moduleCode);
    var progress := Report(Progress(0, []), batch.outcomes, |filtered|, scraper.hasProgressCallback);
    var requests := [GetListing(PortalUrl, moduleCode)] + batch.requests;
    assert forall k :: 1 <= k < |requests| ==> requests[k] == batch.requests[k - 1];
    Run(ReturnedTrue, requests, batch.fs, progress.events)
  }

  /** `Scraper.start`. */
  function Start(scraper: Scraper, portal: Portal, fs: FileSystem,
                 username: string, password: string, moduleCode: string, outputFolder: string): (run: Run)
    ensures |run.requests| >= 2 && run.requests[0] == GetPage(PortalUrl)
    ensures run.requests[1].PostLogin? <==> portal.formBuildId.Some?
    ensures forall k :: 2 <= k < |run.requests| ==> !run.requests[k].PostLogin?
  {
    var auth := Authenticate(portal, username, password);
    if !auth.passed then
      Run(ReturnedMessage(InvalidCredentials), auth.requests, fs, [])
    else
      var rest := FetchAndDownload(scraper, portal, fs, moduleCode, outputFolder);
      rest.(requests := auth.requests + rest.requests)
  }
}
