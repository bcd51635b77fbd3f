/**
 Concrete runs of the scraper model: the year filter on two file names,
 a whole run against a portal that asks for a login, a rejected login,
 and the year filter's raw substring match keeping a paper from an
 earlier year.
 */
module Scenarios {
  import opened Text
  import opened Seqs
  import opened Scraper
  import opened ScraperFacts

  /** "2021" occurs in "exam_2021_may.pdf"; neither "2021" nor "2022" occurs in "exam_2019_may.pdf". */
  lemma YearFilterExample()
    ensures FilterByYear(["exam_2021_may.pdf", "exam_2019_may.pdf"], {"2021", "2022"}) == ["exam_2021_may.pdf"]
  {
    var years := {"2021", "2022"};
    KeptExample("exam_2021_may.pdf", years);
    DroppedExample("exam_2019_may.pdf", years);
    FilterTwo("exam_2021_may.pdf", "exam_2019_may.pdf", p => MentionsAllowedYear(p, years));
  }

  lemma KeptExample(name: string, years: set<string>)
    requires name == "exam_2021_may.pdf" && years == {"2021", "2022"}
    ensures MentionsAllowedYear(name, years)
  {
    SplitWithoutSep(name, '/');
    ContainsIffOccurs(name, "2021");
    assert OccursAt("2021", name, 5);
  }

  lemma DroppedExample(name: string, years: set<string>)
    requires name == "exam_2019_may.pdf" && years == {"2021", "2022"}
    ensures !MentionsAllowedYear(name, years)
  {
    SplitWithoutSep(name, '/');
    NotContainsYear(name, "2021");
    NotContainsYear(name, "2022");
  }

  /** Filtering two elements, the first kept and the second dropped. */
  lemma FilterTwo<T(!new)>(a: T, b: T, keep: T -> bool)
    requires keep(a) && !keep(b)
    ensures Filter([a, b], keep) == [a]
  {
    assert [a, b][1..] == [b];
    assert [b][1..] == [];
  }

  /** "exam_2019_may.pdf" has a '2' only at index 5, followed by "019". */
  lemma NotContainsYear(name: string, year: string)
    requires name == "exam_2019_may.pdf"
    requires year == "2021" || year == "2022"
    ensures !Contains(name, year)
  {
    ContainsIffOccurs(name, year);
    forall i | 0 <= i && i + 4 <= |name|
      ensures !OccursAt(year, name, i)
    {
      if i != 5 {
        assert name[i] != '2';
        assert name[i..i + 4][0] == name[i];
      } else {
        assert name[i..i + 4][2] == '1';
      }
    }
  }

  // ---------------------------------------------------------------------
  // A whole run

  const Paper2022: string := "/a/CS101_2022.pdf"
  const Paper2019: string := "/a/CS101_2019.pdf"
  const Paper2024: string := "/a/CS101_2024.pdf"
  const Body: seq<byte> := [37, 80, 68, 70]

  /** A portal that shows a login form, accepts the login and lists three papers. */
  function ExamPortal(): Portal
  {
    Portal(Some("form-1"), 200, Listing(200, [Paper2022, Paper2019, Paper2024]),
           url => PaperResponse(200, Body))
  }

  /** A paper at "/a/{name}" is saved under its name. */
  lemma PaperName(url: string, name: string)
    requires url == "/a/" + name && '/' !in name
    ensures LastSegment(url) == name
  {
    assert url == "/a" + "/" + name;
    LastSegmentOfPath("/a", name);
  }

  /** A paper whose name holds an allowed year at some position is selected. */
  lemma MentionsAt(url: string, name: string, year: string, i: int)
    requires url == "/a/" + name && '/' !in name
    requires year in DefaultYears && OccursAt(year, name, i)
    ensures MentionsAllowedYear(url, DefaultYears)
  {
    PaperName(url, name);
    ContainsIffOccurs(name, year);
  }

  /** "CS101_2019.pdf" has a '2' only at index 6, followed by "01": no "20?2" occurs in it. */
  lemma NoYearIn2019(name: string, year: string)
    requires name == "CS101_2019.pdf"
    requires |year| == 4 && year[0] == '2' && year[2] == '2'
    ensures !Contains(name, year)
  {
    ContainsIffOccurs(name, year);
    forall i | 0 <= i && i + 4 <= |name|
      ensures !OccursAt(year, name, i)
    {
      if i != 6 {
        assert name[i] != '2';
        assert name[i..i + 4][0] == name[i];
      } else {
        assert name[i..i + 4][2] == '1';
      }
    }
  }

  lemma Misses2019(url: string, name: string)
    requires url == "/a/" + name && name == "CS101_2019.pdf"
    ensures !MentionsAllowedYear(url, DefaultYears)
  {
    PaperName(url, name);
    forall year | year in DefaultYears ensures !Contains(name, year) {
      NoYearIn2019(name, year);
    }
  }

  /** Filtering three elements, keeping the first and the last. */
  lemma FilterThree<T(!new)>(a: T, b: T, c: T, keep: T -> bool)
    requires keep(a) && !keep(b) && keep(c)
    ensures Filter([a, b, c], keep) == [a, c]
  {
    assert [a, b, c][1..] == [b, c];
    assert [b, c][1..] == [c];
    assert [c][1..] == [];
    assert Filter([c], keep) == [c];
    assert Filter([b, c], keep) == [c];
  }

  /** Keeping the first and last of three PDF links by year. */
  lemma FilterThreeYears(a: string, b: string, c: string, years: set<string>)
    requires IsPdfLink(a) && IsPdfLink(b) && IsPdfLink(c)
    requires MentionsAllowedYear(a, years) && !MentionsAllowedYear(b, years) && MentionsAllowedYear(c, years)
    ensures FilterByYear(PdfLinks([a, b, c]), years) == [a, c]
  {
    var hrefs := [a, b, c];
    assert forall k :: 0 <= k < |hrefs| ==> IsPdfLink(hrefs[k]);
    FilterAll(hrefs, IsPdfLink);
    FilterThree(a, b, c, p => MentionsAllowedYear(p, years));
  }

  lemma Selects2022()
    ensures IsPdfLink(Paper2022) && MentionsAllowedYear(Paper2022, DefaultYears)
  {
    MentionsAt(Paper2022, "CS101_2022.pdf", "2022", 6);
  }

  lemma Skips2019()
    ensures IsPdfLink(Paper2019) && !MentionsAllowedYear(Paper2019, DefaultYears)
  {
    Misses2019(Paper2019, "CS101_2019.pdf");
  }

  lemma Selects2024()
    ensures IsPdfLink(Paper2024) && MentionsAllowedYear(Paper2024, DefaultYears)
  {
    MentionsAt(Paper2024, "CS101_2024.pdf", "2024", 6);
  }

  /** Of the three listed papers, the default years select the 2022 and 2024 ones. */
  lemma ThreePapersSelection()
    ensures FilterByYear(PdfLinks([Paper2022, Paper2019, Paper2024]), DefaultYears) == [Paper2022, Paper2024]
  {
    Selects2022();
    Skips2019();
    Selects2024();
    FilterThreeYears(Paper2022, Paper2019, Paper2024, DefaultYears);
  }

  lemma ExamPortalSelection(scraper: Scraper)
    requires scraper.allowedYears == DefaultYears
    ensures Selected(scraper, ExamPortal()) == [Paper2022, Paper2024]
  {
    ThreePapersSelection();
  }

  /** Two fresh downloads with 200 answers save both bodies. */
  lemma TwoFreshDownloads(fs: FileSystem, papers: string -> PaperResponse, u1: string, u2: string,
                          outputFolder: string, moduleCode: string)
    requires PapersDir(outputFolder, moduleCode) in fs.dirs
    requires papers(u1).status == 200 && papers(u2).status == 200
    requires PaperPath(u1, outputFolder, moduleCode) != PaperPath(u2, outputFolder, moduleCode)
    requires !PathExists(fs, PaperPath(u1, outputFolder, moduleCode))
    requires !PathExists(fs, PaperPath(u2, outputFolder, moduleCode))
    ensures var b := DownloadAll(fs, papers, [u1, u2], outputFolder, moduleCode);
      && b.outcomes == [Saved, Saved]
      && b.fs == FileSystem(fs.dirs, fs.files[PaperPath(u1, outputFolder, moduleCode) := papers(u1).content]
                                             [PaperPath(u2, outputFolder, moduleCode) := papers(u2).content])
  {
    var d1 := DownloadPaper(fs, u1, outputFolder, moduleCode, papers(u1));
    var d2 := DownloadPaper(d1.fs, u2, outputFolder, moduleCode, papers(u2));
    assert [u1, u2][1..] == [u2];
    assert [u2][1..] == [];
    assert DownloadAll(d1.fs, papers, [u2], outputFolder, moduleCode).outcomes == [d2.outcome];
  }

  /** A paper at "/a/{name}" is saved as "{name}" in the papers directory. */
  lemma SavedAs(url: string, name: string, outputFolder: string, moduleCode: string)
    requires url == "/a/" + name && '/' !in name
    ensures PaperPath(url, outputFolder, moduleCode) == PapersDir(outputFolder, moduleCode) + "/" + name
  {
    PaperName(url, name);
  }

  /**
   Logging in, listing three papers and keeping the two from allowed years:
   the run returns `True`, saves exactly those two files under
   "out/CS101/papers", and reports `(1, 2)` then `(2, 2)`.
   */
  lemma ExamPortalRun(scraper: Scraper, portal: Portal, fs: FileSystem, username: string, password: string,
                      moduleCode: string, outputFolder: string)
    requires scraper == AttachProgressCallback(Init(None))
    requires portal == ExamPortal() && fs == FileSystem({}, map[])
    requires moduleCode == "CS101" && outputFolder == "out"
    ensures var run := Start(scraper, portal, fs, username, password, moduleCode, outputFolder);
      && run.outcome == ReturnedTrue
      && run.fs.dirs == {"out/CS101/papers"}
      && run.fs.files.Keys == {"out/CS101/papers/CS101_2022.pdf", "out/CS101/papers/CS101_2024.pdf"}
      && run.progressEvents == [ProgressEvent(1, 2), ProgressEvent(2, 2)]
  {
    InitDefaultYears();
    assert scraper.allowedYears == DefaultYears && scraper.hasProgressCallback;
    ExamPortalSelection(scraper);
    assert portal.papers(Paper2022).status == 200 && portal.papers(Paper2024).status == 200;
    ExamDir(PapersDir(outputFolder, moduleCode), outputFolder, moduleCode);
    ExamPath2022(Paper2022, outputFolder, moduleCode);
    ExamPath2024(Paper2024, outputFolder, moduleCode);
    var path1 := PaperPath(Paper2022, outputFolder, moduleCode);
    var path2 := PaperPath(Paper2024, outputFolder, moduleCode);
    FreshDir(fs, PapersDir(outputFolder, moduleCode), path1, path2);
    StartSucceeds(scraper, portal, fs, username, password, moduleCode, outputFolder);
    var fs' := MakeDirsIfMissing(fs, PapersDir(outputFolder, moduleCode));
    TwoFreshDownloads(fs', portal.papers, Paper2022, Paper2024, outputFolder, moduleCode);
    TwoProgressEvents(2, scraper.hasProgressCallback);
    TwoKeys(path1, path2, portal.papers(Paper2022).content, portal.papers(Paper2024).content);
  }

  // The example run's steps, each in a lemma of its own. Every one of them
  // equates concrete strings or maps, which the verifier settles quickly in a
  // small context but not inside `ExamPortalRun`, so that lemma only chains them.

  /** Making a directory in an empty file system leaves only that directory. */
  lemma FreshDir(fs: FileSystem, dir: string, path1: string, path2: string)
    requires fs == FileSystem({}, map[]) && path1 != dir && path2 != dir
    ensures MakeDirsIfMissing(fs, dir) == FileSystem({dir}, map[])
    ensures !PathExists(MakeDirsIfMissing(fs, dir), path1) && !PathExists(MakeDirsIfMissing(fs, dir), path2)
  {
  }

  /** A map built by two updates has exactly the two updated keys. */
  lemma TwoKeys(path1: string, path2: string, c1: seq<byte>, c2: seq<byte>)
    ensures (map[][path1 := c1][path2 := c2]).Keys == {path1, path2}
  {
  }

  /** Where the example run saves its 2022 paper. */
  lemma ExamPath2022(url: string, outputFolder: string, moduleCode: string)
    requires url == Paper2022 && outputFolder == "out" && moduleCode == "CS101"
    ensures PaperPath(url, outputFolder, moduleCode) == "out/CS101/papers/CS101_2022.pdf"
  {
    ExamPath(url, "CS101_2022.pdf", outputFolder, moduleCode, "out/CS101/papers/CS101_2022.pdf");
  }

  /** Where the example run saves its 2024 paper. */
  lemma ExamPath2024(url: string, outputFolder: string, moduleCode: string)
    requires url == Paper2024 && outputFolder == "out" && moduleCode == "CS101"
    ensures PaperPath(url, outputFolder, moduleCode) == "out/CS101/papers/CS101_2024.pdf"
  {
    ExamPath(url, "CS101_2024.pdf", outputFolder, moduleCode, "out/CS101/papers/CS101_2024.pdf");
  }

  /** Where the example run saves a paper at "/a/{name}". */
  lemma ExamPath(url: string, name: string, outputFolder: string, moduleCode: string, path: string)
    requires url == "/a/" + name && '/' !in name
    requires outputFolder == "out" && moduleCode == "CS101" && path == "out/CS101/papers/" + name
    ensures PaperPath(url, outputFolder, moduleCode) == path
  {
    SavedAs(url, name, outputFolder, moduleCode);
    ExamDir(PapersDir(outputFolder, moduleCode), outputFolder, moduleCode);
  }

  /** The example run's papers directory. */
  lemma ExamDir(dir: string, outputFolder: string, moduleCode: string)
    requires outputFolder == "out" && moduleCode == "CS101" && dir == PapersDir(outputFolder, moduleCode)
    ensures dir == "out/CS101/papers"
  {
  }

  /** Two saved papers out of two report `(1, 2)` then `(2, 2)` when a callback is attached. */
  lemma TwoProgressEvents(total: int, callback: bool)
    requires total == 2
    ensures Report(Progress(0, []), [Saved, Saved], total, callback).events
            == if callback then [ProgressEvent(1, 2), ProgressEvent(2, 2)] else []
  {
    var outcomes := [Saved, Saved];
    assert outcomes[1..] == [Saved];
    assert [Saved][1..] == [];
  }


  /** A 403 on the login POST: "Error: Invalid credentials", and no directory is made. */
  lemma RejectedLoginRun(fs: FileSystem)
    ensures var portal := ExamPortal().(loginStatus := 403);
      var run := Start(Init(None), portal, fs, "student", "wrong", "CS101", "out");
      && run.outcome == ReturnedMessage("Error: Invalid credentials")
      && run.fs == fs
      && |run.requests| == 2
  {
    StartRejectsLogin(Init(None), ExamPortal().(loginStatus := 403), fs, "student", "wrong", "CS101", "out");
  }

  /**
   The year test is a raw substring match: a 2015 paper whose file name also
   carries the digits "2021" (here in a module code) is kept under the
   default years.
   */
  lemma SubstringFalsePositive(url: string)
    requires url == "/a/MA2021_exam_2015.pdf"
    ensures MentionsAllowedYear(url, DefaultYears)
  {
    MentionsAt(url, "MA2021_exam_2015.pdf", "2021", 2);
  }
}
