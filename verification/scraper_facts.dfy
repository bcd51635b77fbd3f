/**
 Properties of the scraper model that relate several calls or a whole run:
 what each stage of `start` does when it aborts, when a run succeeds, how
 progress is reported, and that downloading again never rewrites a file.
 */
module ScraperFacts {
  import opened Text
  import opened Decimal
  import opened StringOrder
  import opened Seqs
  import opened Scraper

  // ---------------------------------------------------------------------
  // The allowed years

  /** The six default years, written out. */
  const DefaultYears: set<string> := {"2020", "2021", "2022", "2023", "2024", "2025"}

  /** With no argument the allowed years are exactly "2020" through "2025". */
  lemma InitDefaultYears()
    ensures Init(None).allowedYears == DefaultYears
  {
    var s := Init(None).allowedYears;
    DefaultYearsByDigit();
    forall y | y in s ensures y in DefaultYears {
      var n :| 2020 <= n < 2026 && y == IntToString(n);
      DefaultYearText(n);
    }
    forall d | 0 <= d < 6 ensures "202" + [DigitChar(d)] in s {
      DefaultYearText(2020 + d);
    }
  }

  /** The text of a default year is "202" followed by its last digit. */
  lemma DefaultYearText(n: int)
    requires 2020 <= n < 2026
    ensures IntToString(n) == "202" + [DigitChar(n - 2020)]
  {
    assert n / 10 == 202 && n % 10 == n - 2020;
    assert NatToString(202) == "202";
  }

  lemma DefaultYearsByDigit()
    ensures DefaultYears == set d | 0 <= d < 6 :: "202" + [DigitChar(d)]
  {
    assert "202" + [DigitChar(0)] == "2020";
    assert "202" + [DigitChar(1)] == "2021";
    assert "202" + [DigitChar(2)] == "2022";
    assert "202" + [DigitChar(3)] == "2023";
    assert "202" + [DigitChar(4)] == "2024";
    assert "202" + [DigitChar(5)] == "2025";
  }

  /** The default is the same as passing `range(2020, 2026)` explicitly. */
  lemma InitDefaultIsRange()
    ensures Init(None) == Init(Some(seq(6, k => IntYear(2020 + k))))
  {
    InitRangeSame(seq(6, k => IntYear(2020 + k)));
  }

  lemma InitRangeSame(ys: seq<YearValue>)
    requires |ys| == 6 && forall k :: 0 <= k < 6 ==> ys[k] == IntYear(2020 + k)
    ensures Init(Some(ys)) == Init(None)
  {
    var s := Init(None).allowedYears;
    var t := Init(Some(ys)).allowedYears;
    forall y | y in s ensures y in t {
      var n :| 2020 <= n < 2026 && y == IntToString(n);
      YearTextOfInt(ys[n - 2020], n);
    }
    forall y | y in t ensures y in s {
      var k :| 0 <= k < 6 && YearText(ys[k]) == y;
      YearTextOfInt(ys[k], 2020 + k);
    }
  }

  lemma YearTextOfInt(y: YearValue, n: int)
    requires y == IntYear(n)
    ensures YearText(y) == IntToString(n)
  {
  }

  /**
   An integer's text is allowed exactly when the argument held that integer,
   or held its text as a string: `str` tells different integers apart.
   */
  lemma InitIntYearAllowed(ys: seq<YearValue>, n: int)
    ensures IntToString(n) in Init(Some(ys)).allowedYears
      <==> IntYear(n) in ys || TextYear(IntToString(n)) in ys
  {
    var s := Init(Some(ys)).allowedYears;
    if IntToString(n) in s {
      var k :| 0 <= k < |ys| && YearText(ys[k]) == IntToString(n);
      match ys[k]
      case IntYear(m) =>
        IntToStringInjective(m, n);
      case TextYear(t) =>
    }
    if IntYear(n) in ys {
      var k :| 0 <= k < |ys| && ys[k] == IntYear(n);
      assert YearText(ys[k]) in s;
    }
    if TextYear(IntToString(n)) in ys {
      var k :| 0 <= k < |ys| && ys[k] == TextYear(IntToString(n));
      assert YearText(ys[k]) in s;
    }
  }

  /** With the default years the "no papers in range" message names 2020 and 2025. */
  lemma DefaultYearsMessage()
    ensures Init(None).allowedYears == DefaultYears
    ensures NoPapersInYears(DefaultYears) == "No papers found for this module in years 2020-2025"
  {
    InitDefaultYears();
    DefaultLeast();
    DefaultGreatest();
    YearsMessageLiteral(DefaultYears);
  }

  lemma DefaultLeast()
    ensures Min(DefaultYears) == "2020"
  {
    assert IsLeast("2020", DefaultYears);
    LeastUnique(DefaultYears);
  }

  lemma DefaultGreatest()
    ensures Max(DefaultYears) == "2025"
  {
    assert IsGreatest("2025", DefaultYears);
    GreatestUnique(DefaultYears);
  }

  // ---------------------------------------------------------------------
  // Stage by stage

  /** The papers a run would download: the PDF links that mention an allowed year. */
  function Selected(scraper: Scraper, portal: Portal): (urls: seq<string>)
    ensures forall k :: 0 <= k < |urls| ==> IsPdfLink(urls[k]) && MentionsAllowedYear(urls[k], scraper.allowedYears)
    ensures IsSubsequence(urls, portal.listing.hrefs)
  {
    var pdfs := PdfLinks(portal.listing.hrefs);
    var urls := FilterByYear(pdfs, scraper.allowedYears);
    SubsequenceTransitive(urls, pdfs, portal.listing.hrefs);
    forall k | 0 <= k < |urls| ensures IsPdfLink(urls[k]) {
      assert multiset(urls)[urls[k]] > 0;
      assert multiset(pdfs)[urls[k]] > 0;
      assert urls[k] in pdfs;
    }
    urls
  }

  lemma {:induction false} SubsequenceTransitive<T>(a: seq<T>, b: seq<T>, c: seq<T>)
    requires IsSubsequence(a, b) && IsSubsequence(b, c)
    ensures IsSubsequence(a, c)
    decreases |c|
  {
    if |a| > 0 {
      if a[0] == b[0] && IsSubsequence(a[1..], b[1..]) {
        if b[0] == c[0] && IsSubsequence(b[1..], c[1..]) {
          SubsequenceTransitive(a[1..], b[1..], c[1..]);
        } else {
          SubsequenceTransitive(a, b, c[1..]);
        }
      } else {
        if b[0] == c[0] && IsSubsequence(b[1..], c[1..]) {
          SubsequenceTransitive(a, b[1..], c[1..]);
        } else {
          SubsequenceTransitive(a, b, c[1..]);
        }
      }
    }
  }

  /** Without a login form the scraper posts nothing and goes straight to the listing. */
  lemma StartSkipsLoginWithoutForm(scraper: Scraper, portal: Portal, fs: FileSystem,
                                   username: string, password: string, moduleCode: string, outputFolder: string)
    requires portal.formBuildId.None?
    ensures var run := Start(scraper, portal, fs, username, password, moduleCode, outputFolder);
      && |run.requests| >= 2
      && run.requests[..2] == [GetPage(PortalUrl), GetListing(PortalUrl, moduleCode)]
      && forall k :: 0 <= k < |run.requests| ==> !run.requests[k].PostLogin?
  {
  }

  /**
   With a login form, the credentials and the form's token are posted once;
   a non-200 answer ends the run with "Error: Invalid credentials", before
   any listing request and without touching the disk.
   */
  lemma StartRejectsLogin(scraper: Scraper, portal: Portal, fs: FileSystem,
                          username: string, password: string, moduleCode: string, outputFolder: string)
    requires portal.formBuildId.Some? && portal.loginStatus != 200
    ensures Start(scraper, portal, fs, username, password, moduleCode, outputFolder)
      == Run(ReturnedMessage("Error: Invalid credentials"),
             [GetPage(PortalUrl),
              PostLogin(PortalUrl, LoginForm(username, password, "user_login", portal.formBuildId.value))],
             fs, [])
  {
  }

  /** A non-200 listing answer ends the run with "Error: Unable to fetch exam papers". */
  lemma StartRejectsListing(scraper: Scraper, portal: Portal, fs: FileSystem,
                            username: string, password: string, moduleCode: string, outputFolder: string)
    requires portal.formBuildId.None? || portal.loginStatus == 200
    requires portal.listing.status != 200
    ensures var run := Start(scraper, portal, fs, username, password, moduleCode, outputFolder);
      && run.outcome == ReturnedMessage("Error: Unable to fetch exam papers")
      && run.requests[|run.requests| - 1] == GetListing(PortalUrl, moduleCode)
      && run.fs == fs && run.progressEvents == []
  {
  }

  /** A listing without PDF links ends the run before any directory is created. */
  lemma StartWithoutPdfLinks(scraper: Scraper, portal: Portal, fs: FileSystem,
                             username: string, password: string, moduleCode: string, outputFolder: string)
    requires portal.formBuildId.None? || portal.loginStatus == 200
    requires portal.listing.status == 200
    requires forall k :: 0 <= k < |portal.listing.hrefs| ==> !EndsWith(portal.listing.hrefs[k], ".pdf")
    ensures var run := Start(scraper, portal, fs, username, password, moduleCode, outputFolder);
      run.outcome == ReturnedMessage("No papers found for this module") && run.fs == fs
  {
    FilterEmpty(portal.listing.hrefs, IsPdfLink);
  }

  /**
   PDF links exist but none mentions an allowed year: the papers directory
   has already been made, and the message names the least and greatest
   allowed year (or `min` raises on an empty set).
   */
  lemma StartWithoutYearMatch(scraper: Scraper, portal: Portal, fs: FileSystem,
                              username: string, password: string, moduleCode: string, outputFolder: string)
    requires portal.formBuildId.None? || portal.loginStatus == 200
    requires portal.listing.status == 200
    requires |PdfLinks(portal.listing.hrefs)| > 0 && |Selected(scraper, portal)| == 0
    ensures var run := Start(scraper, portal, fs, username, password, moduleCode, outputFolder);
      && PathExists(run.fs, PapersDir(outputFolder, moduleCode))
      && run.fs.files == fs.files
      && run.progressEvents == []
      && (scraper.allowedYears == {} ==> run.outcome == RaisedValueError)
      && (scraper.allowedYears != {} ==>
            run.outcome == ReturnedMessage("No papers found for this module in years "
                                           + Min(scraper.allowedYears) + "-" + Max(scraper.allowedYears)))
  {
    var dir := PapersDir(outputFolder, moduleCode);
    var fs' := MakeDirsIfMissing(fs, dir);
    var rest := FetchAndDownload(scraper, portal, fs, moduleCode, outputFolder);
    var run := Start(scraper, portal, fs, username, password, moduleCode, outputFolder);
    assert run.outcome == rest.outcome && run.fs == rest.fs && run.progressEvents == rest.progressEvents;
    assert rest.fs == fs' && rest.progressEvents == [];
    if scraper.allowedYears != {} {
      YearsMessageLiteral(scraper.allowedYears);
    }
  }

  /**
   The no-match message written out. It is a lemma of its own only so that
   the string equation is proved in a small context.
   */
  lemma YearsMessageLiteral(years: set<string>)
    requires years != {}
    ensures NoPapersInYears(years) == "No papers found for this module in years " + Min(years) + "-" + Max(years)
  {
  }

  /**
   A run that gets past login and listing and selects some paper returns
   `True` after making the papers directory, downloading the selected papers
   in order and reporting each download that reaches `progress_update`.
   */
  lemma StartSucceeds(scraper: Scraper, portal: Portal, fs: FileSystem,
                      username: string, password: string, moduleCode: string, outputFolder: string)
    requires portal.formBuildId.None? || portal.loginStatus == 200
    requires portal.listing.status == 200
    requires |Selected(scraper, portal)| > 0
    ensures var urls := Selected(scraper, portal);
      var b := DownloadAll(MakeDirsIfMissing(fs, PapersDir(outputFolder, moduleCode)), portal.papers, urls,
                           outputFolder, moduleCode);
      Start(scraper, portal, fs, username, password, moduleCode, outputFolder)
        == Run(ReturnedTrue,
               Authenticate(portal, username, password).requests + [GetListing(PortalUrl, moduleCode)] + b.requests,
               b.fs,
               Report(Progress(0, []), b.outcomes, |urls|, scraper.hasProgressCallback).events)
  {
    var pdfs := PdfLinks(portal.listing.hrefs);
    if |pdfs| == 0 {
      FilterEmpty(pdfs, p => MentionsAllowedYear(p, scraper.allowedYears));
    }
  }

  /**
   `start` returns `True` exactly when login (if asked for) and the listing
   succeed and some paper is selected, whatever happens to the downloads.
   */
  lemma StartSucceedsIff(scraper: Scraper, portal: Portal, fs: FileSystem,
                         username: string, password: string, moduleCode: string, outputFolder: string)
    ensures Start(scraper, portal, fs, username, password, moduleCode, outputFolder).outcome == ReturnedTrue
      <==> (portal.formBuildId.None? || portal.loginStatus == 200)
           && portal.listing.status == 200
           && |Selected(scraper, portal)| > 0
  {
    var pdfs := PdfLinks(portal.listing.hrefs);
    if |pdfs| == 0 {
      FilterEmpty(pdfs, p => MentionsAllowedYear(p, scraper.allowedYears));
    }
  }

  // ---------------------------------------------------------------------
  // Downloads and progress

  /**
   A batch of downloads keeps every directory and every file that was there,
   adds only files a 200 answer supplied, at that answer's paper path and
   with its body, and adds one for every 200 answer whose path can be created.
   */
  lemma {:induction false} DownloadAllFiles(fs: FileSystem, papers: string -> PaperResponse, urls: seq<string>,
                                           outputFolder: string, moduleCode: string)
    ensures var b := DownloadAll(fs, papers, urls, outputFolder, moduleCode);
      && b.fs.dirs == fs.dirs
      && (forall p :: p in fs.files ==> p in b.fs.files && b.fs.files[p] == fs.files[p])
      && (forall p :: p in b.fs.files && p !in fs.files ==>
            exists k :: 0 <= k < |urls| && PaperPath(urls[k], outputFolder, moduleCode) == p
              && papers(urls[k]).status == 200 && b.fs.files[p] == papers(urls[k]).content)
      && (forall k ::
            (0 <= k < |urls| && papers(urls[k]).status == 200
             && CanCreateFile(fs, PapersDir(outputFolder, moduleCode), PaperPath(urls[k], outputFolder, moduleCode)))
            ==> PaperPath(urls[k], outputFolder, moduleCode) in b.fs.files)
    decreases |urls|
  {
    if |urls| > 0 {
      var d := DownloadPaper(fs, urls[0], outputFolder, moduleCode, papers(urls[0]));
      var tail := urls[1..];
      DownloadAllFiles(d.fs, papers, tail, outputFolder, moduleCode);
      var rest := DownloadAll(d.fs, papers, tail, outputFolder, moduleCode);
      var b := DownloadAll(fs, papers, urls, outputFolder, moduleCode);
      assert b.fs == rest.fs;
      forall p | p in b.fs.files && p !in fs.files
        ensures exists k :: (0 <= k < |urls| && PaperPath(urls[k], outputFolder, moduleCode) == p
          && papers(urls[k]).status == 200 && b.fs.files[p] == papers(urls[k]).content)
      {
        if p in d.fs.files {
          assert d.outcome == Saved;
          assert PaperPath(urls[0], outputFolder, moduleCode) == p;
        } else {
          var j :| 0 <= j < |tail| && PaperPath(tail[j], outputFolder, moduleCode) == p
            && papers(tail[j]).status == 200 && b.fs.files[p] == papers(tail[j]).content;
          assert tail[j] == urls[j + 1];
        }
      }
      forall k | 0 <= k < |urls| && papers(urls[k]).status == 200
          && CanCreateFile(fs, PapersDir(outputFolder, moduleCode), PaperPath(urls[k], outputFolder, moduleCode))
        ensures PaperPath(urls[k], outputFolder, moduleCode) in b.fs.files
      {
        if k > 0 {
          assert tail[k - 1] == urls[k];
        }
      }
    }
  }

  /** A second `download_paper` after a write or a skip changes nothing and still reports once. */
  lemma DownloadPaperIdempotent(fs: FileSystem, url: string, outputFolder: string, moduleCode: string,
                                first: PaperResponse, second: PaperResponse)
    requires DownloadPaper(fs, url, outputFolder, moduleCode, first).outcome in {Saved, AlreadyPresent}
    ensures var d1 := DownloadPaper(fs, url, outputFolder, moduleCode, first);
      var d2 := DownloadPaper(d1.fs, url, outputFolder, moduleCode, second);
      d2.fs == d1.fs && ProgressTicks(d2.outcome) == 1
  {
  }

  /** If every 200 answer's target is already a file or cannot be created, a batch writes nothing. */
  lemma {:induction false} DownloadAllWritesNothing(fs: FileSystem, papers: string -> PaperResponse, urls: seq<string>,
                                                   outputFolder: string, moduleCode: string)
    requires forall k :: 0 <= k < |urls| && papers(urls[k]).status == 200 ==>
      PaperPath(urls[k], outputFolder, moduleCode) in fs.files
        || !CanCreateFile(fs, PapersDir(outputFolder, moduleCode), PaperPath(urls[k], outputFolder, moduleCode))
    ensures DownloadAll(fs, papers, urls, outputFolder, moduleCode).fs == fs
    decreases |urls|
  {
    if |urls| > 0 {
      var d := DownloadPaper(fs, urls[0], outputFolder, moduleCode, papers(urls[0]));
      assert d.fs == fs;
      assert forall k :: 0 <= k < |urls[1..]| ==> urls[1..][k] == urls[k + 1];
      DownloadAllWritesNothing(fs, papers, urls[1..], outputFolder, moduleCode);
    }
  }

  /** Running the same downloads twice: the second pass leaves the disk as the first left it. */
  lemma DownloadAllIdempotent(fs: FileSystem, papers: string -> PaperResponse, urls: seq<string>,
                              outputFolder: string, moduleCode: string)
    ensures var b1 := DownloadAll(fs, papers, urls, outputFolder, moduleCode);
      DownloadAll(b1.fs, papers, urls, outputFolder, moduleCode).fs == b1.fs
  {
    var b1 := DownloadAll(fs, papers, urls, outputFolder, moduleCode);
    DownloadAllFiles(fs, papers, urls, outputFolder, moduleCode);
    DownloadAllWritesNothing(b1.fs, papers, urls, outputFolder, moduleCode);
  }

  /** One more call in front of a count-up is a longer count-up. */
  lemma CountUpCons(from: nat, n: nat, total: nat)
    ensures [ProgressEvent(from + 1, total)] + CountUp(from + 1, n, total) == CountUp(from, n + 1, total)
  {
  }

  /**
   The counter goes up once per outcome that reports, and with a callback
   the calls are `(c + 1, total)`, `(c + 2, total)`, … in that order.
   */
  lemma {:induction false} ReportCountsUp(progress: Progress, outcomes: seq<DownloadOutcome>, total: nat, callback: bool)
    ensures var p := Report(progress, outcomes, total, callback);
      && p.count == progress.count + Ticks(outcomes)
      && p.events == progress.events + (if callback then CountUp(progress.count, Ticks(outcomes), total) else [])
    decreases |outcomes|
  {
    if |outcomes| == 0 {
      assert CountUp(progress.count, 0, total) == [];
    } else {
      var p' := if ProgressTicks(outcomes[0]) == 1 then ProgressUpdate(progress, total, callback) else progress;
      ReportCountsUp(p', outcomes[1..], total, callback);
      var n := Ticks(outcomes[1..]);
      if callback && ProgressTicks(outcomes[0]) == 1 {
        var e := ProgressEvent(progress.count + 1, total);
        CountUpCons(progress.count, n, total);
        calc {
          Report(progress, outcomes, total, callback).events;
          (progress.events + [e]) + CountUp(progress.count + 1, n, total);
          progress.events + ([e] + CountUp(progress.count + 1, n, total));
        }
      }
    }
  }

  /** When every target can be created, no download fails to report. */
  lemma {:induction false} DownloadAllReportsEach(fs: FileSystem, papers: string -> PaperResponse, urls: seq<string>,
                                                 outputFolder: string, moduleCode: string)
    requires forall k :: 0 <= k < |urls| ==>
      CanCreateFile(fs, PapersDir(outputFolder, moduleCode), PaperPath(urls[k], outputFolder, moduleCode))
    ensures Ticks(DownloadAll(fs, papers, urls, outputFolder, moduleCode).outcomes) == |urls|
    decreases |urls|
  {
    if |urls| > 0 {
      var d := DownloadPaper(fs, urls[0], outputFolder, moduleCode, papers(urls[0]));
      assert forall k :: 0 <= k < |urls[1..]| ==> urls[1..][k] == urls[k + 1];
      DownloadAllReportsEach(d.fs, papers, urls[1..], outputFolder, moduleCode);
      var b := DownloadAll(fs, papers, urls, outputFolder, moduleCode);
      assert b.outcomes[1..] == DownloadAll(d.fs, papers, urls[1..], outputFolder, moduleCode).outcomes;
    }
  }

  /**
   A successful run with a callback attached reports `(1, N)`, …, `(N, N)`
   for its N selected papers, provided the papers directory could be made
   and no target path is a directory; without a callback it reports nothing.
   */
  lemma StartReportsProgress(scraper: Scraper, portal: Portal, fs: FileSystem,
                             username: string, password: string, moduleCode: string, outputFolder: string)
    requires Start(scraper, portal, fs, username, password, moduleCode, outputFolder).outcome == ReturnedTrue
    requires PapersDir(outputFolder, moduleCode) in fs.dirs || PapersDir(outputFolder, moduleCode) !in fs.files
    requires forall k :: 0 <= k < |Selected(scraper, portal)| ==>
      PaperPath(Selected(scraper, portal)[k], outputFolder, moduleCode) !in fs.dirs
    ensures var run := Start(scraper, portal, fs, username, password, moduleCode, outputFolder);
      var n := |Selected(scraper, portal)|;
      run.progressEvents == if scraper.hasProgressCallback then CountUp(0, n, n) else []
  {
    StartSucceedsIff(scraper, portal, fs, username, password, moduleCode, outputFolder);
    StartSucceeds(scraper, portal, fs, username, password, moduleCode, outputFolder);
    var fs' := MakeDirsIfMissing(fs, PapersDir(outputFolder, moduleCode));
    MadeDirIsNoPaper(fs, Selected(scraper, portal), outputFolder, moduleCode);
    BatchReportsEach(fs', portal.papers, Selected(scraper, portal), outputFolder, moduleCode,
                     scraper.hasProgressCallback);
  }

  /** Making the papers directory never puts a directory where a paper goes. */
  lemma MadeDirIsNoPaper(fs: FileSystem, urls: seq<string>, outputFolder: string, moduleCode: string)
    requires forall k :: 0 <= k < |urls| ==> PaperPath(urls[k], outputFolder, moduleCode) !in fs.dirs
    ensures var fs' := MakeDirsIfMissing(fs, PapersDir(outputFolder, moduleCode));
      forall k :: 0 <= k < |urls| ==> PaperPath(urls[k], outputFolder, moduleCode) !in fs'.dirs
  {
    var dir := PapersDir(outputFolder, moduleCode);
    forall k | 0 <= k < |urls| ensures PaperPath(urls[k], outputFolder, moduleCode) != dir {
      assert |PaperPath(urls[k], outputFolder, moduleCode)| > |dir|;
    }
  }

  /**
   Downloads into a papers directory that exists, where no target is a
   directory, report `(1, N)`, …, `(N, N)` through a callback.
   */
  lemma BatchReportsEach(fs: FileSystem, papers: string -> PaperResponse, urls: seq<string>,
                         outputFolder: string, moduleCode: string, callback: bool)
    requires PapersDir(outputFolder, moduleCode) in fs.dirs
    requires forall k :: 0 <= k < |urls| ==> PaperPath(urls[k], outputFolder, moduleCode) !in fs.dirs
    ensures var b := DownloadAll(fs, papers, urls, outputFolder, moduleCode);
      Report(Progress(0, []), b.outcomes, |urls|, callback).events
        == if callback then CountUp(0, |urls|, |urls|) else []
  {
    var b := DownloadAll(fs, papers, urls, outputFolder, moduleCode);
    ReportCountsUp(Progress(0, []), b.outcomes, |urls|, callback);
    DownloadAllReportsEach(fs, papers, urls, outputFolder, moduleCode);
  }
}
