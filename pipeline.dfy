/**
 * The per-genre scrape-and-save step and the script's loop over the genre
 * list: fetch failures are logged and skipped, any other error stops the
 * run with exit status 1, and a genre's file is written only after all of
 * its items were turned into rows.
 */
module Pipeline {
  import opened Results
  import opened Naming
  import opened Extraction

  /**
   * What the fetch of one genre page gave: the `.newsFeed_item` elements, or
   * a `requests.RequestException` (transport failure or a non-2xx status).
   */
  datatype Page = Fetched(items: seq<Item>) | FetchError

  /** One CSV file: the folder it is made in, its path, and its data rows (the header is Columns). */
  datatype CsvFile = CsvFile(folder: string, path: string, rows: seq<Row>)

  /** What one call of the per-genre step did. */
  datatype GenreResult =
    | Saved(file: CsvFile)    // rows were assembled and the file written
    | NoData                  // the page had no item: nothing written
    | FetchFailed             // the fetch raised: logged, nothing written
    | Failed(error: ItemError) // an item raised: re-raised to the script

  /** The result of the per-genre step, as a function of the page it is given. */
  function GenreStep(page: Page, genre: Genre, folder: string, t: Timestamp): GenreResult {
    match page
    case FetchError => FetchFailed
    case Fetched(items) =>
      match ExtractAll(items, genre, t)
      case Err(e) => Failed(e)
      case Ok(rows) =>
        if rows == [] then NoData
        else Saved(CsvFile(folder, JoinPath(folder, FileName(t, genre.en)), rows))
  }

  /**
   * `scrape_and_save_news`: walks the items in page order, appending one row
   * per item, and leaves at the first item that lacks a required element;
   * only a loop that ran to its end writes, and only when it kept a row.
   */
  method ScrapeAndSave(page: Page, genre: Genre, folder: string, t: Timestamp) returns (r: GenreResult)
    ensures r == GenreStep(page, genre, folder, t)
  {
    if page.FetchError? {
      return FetchFailed;
    }
    var items := page.items;
    ghost var outcomes := ItemResults(items, genre, t);
    var newsData: seq<Row> := [];
    var i := 0;
    while i < |items|
      invariant 0 <= i <= |items|
      invariant Collect(outcomes[..i]) == Ok(newsData)
    {
      var row := ExtractRow(items[i], i, genre, t);
      assert outcomes[..i + 1][..i] == outcomes[..i];
      if row.Err? {
        CollectErrorPersists(outcomes, i + 1);
        return Failed(row.error);
      }
      newsData := newsData + [row.value];
      i := i + 1;
    }
    assert outcomes[..i] == outcomes;
    if |newsData| > 0 {
      var filename := FileName(t, genre.en);
      r := Saved(CsvFile(folder, JoinPath(folder, filename), newsData));
    } else {
      r := NoData;
    }
  }

  /**
   * What each outcome of the per-genre step means: a fetch failure is the
   * only way to FetchFailed, an empty page the only way to NoData, a saved
   * file holds one row per item in page order under the path named by the
   * capture minute and the genre, and an error is the first failing item's.
   */
  lemma GenreStepCases(page: Page, genre: Genre, folder: string, t: Timestamp)
    ensures GenreStep(page, genre, folder, t) == FetchFailed <==> page.FetchError?
    ensures GenreStep(page, genre, folder, t) == NoData <==> page == Fetched([])
    ensures GenreStep(page, genre, folder, t).Saved? ==>
      var f := GenreStep(page, genre, folder, t).file;
      && page.Fetched? && 0 < |f.rows| == |page.items|
      && f.folder == folder && f.path == JoinPath(folder, FileName(t, genre.en))
      && forall i :: 0 <= i < |page.items| ==>
           ExtractRow(page.items[i], i, genre, t).Ok? && f.rows[i] == ExtractRow(page.items[i], i, genre, t).value
    ensures GenreStep(page, genre, folder, t).Failed? ==>
      var e := GenreStep(page, genre, folder, t).error;
      && page.Fetched? && e.index < |page.items|
      && ExtractRow(page.items[e.index], e.index, genre, t) == Err(e)
      && forall i :: 0 <= i < e.index ==> ExtractRow(page.items[i], i, genre, t).Ok?
  {
    if page.Fetched? {
      ExtractAllSpec(page.items, genre, t);
    }
  }

  // The script's loop over the genres

  /** How the script ends: it ran through the list, or stopped at a genre with `exit(1)`. */
  datatype Outcome = Completed | Aborted(genreIndex: nat, error: ItemError)

  function ExitCode(o: Outcome): (code: int)
    ensures code == 0 <==> o.Completed?
    ensures code == 1 <==> o.Aborted?
  {
    if o.Completed? then 0 else 1
  }

  /** The results of the genres processed so far, the files written, and whether the run stopped. */
  datatype RunState = RunState(results: seq<GenreResult>, written: seq<CsvFile>, outcome: Outcome)

  /**
   * The loop's policy over the step results of the genres in list order:
   * a saved file is kept, a fetch failure or an empty page passes, and the
   * first failed step stops the loop at its index.
   */
  function Policy(steps: seq<GenreResult>): RunState {
    if steps == [] then RunState([], [], Completed)
    else
      var s := Policy(steps[..|steps| - 1]);
      if s.outcome.Aborted? then s
      else
        var r := steps[|steps| - 1];
        match r
        case Failed(e) => RunState(s.results + [r], s.written, Aborted(|steps| - 1, e))
        case Saved(f) => RunState(s.results + [r], s.written + [f], Completed)
        case _ => RunState(s.results + [r], s.written, Completed)
  }

  /** What the step gives for each genre, by position, with the run's one folder and timestamp. */
  function GenreResults(genres: seq<Genre>, pages: seq<Page>, t: Timestamp): (rs: seq<GenreResult>)
    requires |pages| == |genres|
    ensures |rs| == |genres|
    ensures forall i :: 0 <= i < |genres| ==> rs[i] == GenreStep(pages[i], genres[i], FolderName(t), t)
  {
    seq(|genres|, i requires 0 <= i < |genres| => GenreStep(pages[i], genres[i], FolderName(t), t))
  }

  /** The whole run: `pages[i]` is what the fetch of `genres[i]` gives. */
  function RunSpec(genres: seq<Genre>, pages: seq<Page>, t: Timestamp): RunState
    requires |pages| == |genres|
  {
    Policy(GenreResults(genres, pages, t))
  }

  /**
   * The script's top level: one capture time, one folder name, then each
   * genre in list order; the first genre whose step raises stops the loop.
   */
  method Run(genres: seq<Genre>, pages: seq<Page>, t: Timestamp)
    returns (outcome: Outcome, results: seq<GenreResult>, written: seq<CsvFile>)
    requires |pages| == |genres|
    ensures RunState(results, written, outcome) == RunSpec(genres, pages, t)
  {
    ghost var steps := GenreResults(genres, pages, t);
    var folder := FolderName(t);
    results, written := [], [];
    var i := 0;
    while i < |genres|
      invariant 0 <= i <= |genres|
      invariant Policy(steps[..i]) == RunState(results, written, Completed)
    {
      var r := ScrapeAndSave(pages[i], genres[i], folder, t);
      assert steps[..i + 1][..i] == steps[..i];
      results := results + [r];
      if r.Failed? {
        outcome := Aborted(i, r.error);
        AbortPersists(steps, i + 1);
        return;
      }
      if r.Saved? {
        written := written + [r.file];
      }
      i := i + 1;
    }
    assert steps[..i] == steps;
    outcome := Completed;
  }

  /** Once the run has stopped, later genres change nothing. */
  lemma {:induction false} AbortPersists(steps: seq<GenreResult>, m: nat)
    requires m <= |steps| && Policy(steps[..m]).outcome.Aborted?
    ensures Policy(steps) == Policy(steps[..m])
    decreases |steps| - m
  {
    if m < |steps| {
      var init := steps[..|steps| - 1];
      assert init[..m] == steps[..m];
      AbortPersists(init, m);
    } else {
      assert steps[..m] == steps;
    }
  }

  /** The files among a list of step results, in order. */
  function SavedFiles(results: seq<GenreResult>): (files: seq<CsvFile>)
    ensures |files| <= |results|
  {
    if results == [] then []
    else
      var last := results[|results| - 1];
      SavedFiles(results[..|results| - 1]) + (if last.Saved? then [last.file] else [])
  }

  /**
   * The policy keeps the step results it processed, as a prefix of the
   * steps in order, and writes the files of exactly the saved ones.
   */
  lemma {:induction false} PolicyKeepsResults(steps: seq<GenreResult>)
    ensures var s := Policy(steps);
      && |s.results| <= |steps|
      && (forall j :: 0 <= j < |s.results| ==> s.results[j] == steps[j])
      && s.written == SavedFiles(s.results)
  {
    if steps != [] {
      var init := steps[..|steps| - 1];
      PolicyKeepsResults(init);
      var s := Policy(init);
      if s.outcome.Completed? {
        PolicyOutcome(init);
        var r := steps[|steps| - 1];
        var results := s.results + [r];
        var written := s.written + if r.Saved? then [r.file] else [];
        assert Policy(steps).results == results && Policy(steps).written == written by {
          match r
          case Failed(e) =>
          case Saved(f) =>
          case _ =>
        }
        assert results[..|results| - 1] == s.results;
        assert SavedFiles(results) == written;
        forall j | 0 <= j < |results| ensures results[j] == steps[j] {
          if j < |init| { assert init[j] == steps[j]; }
        }
      }
    }
  }

  /**
   * The policy completes exactly when no step failed, having processed them
   * all; otherwise it stops at the first failed step, the last one it
   * processed.
   */
  lemma {:induction false} PolicyOutcome(steps: seq<GenreResult>)
    ensures var s := Policy(steps);
      && (s.outcome.Completed? <==> forall j :: 0 <= j < |steps| ==> !steps[j].Failed?)
      && (s.outcome.Completed? ==> |s.results| == |steps|)
      && (s.outcome.Aborted? ==>
            && |s.results| == s.outcome.genreIndex + 1 <= |steps|
            && steps[s.outcome.genreIndex] == Failed(s.outcome.error)
            && forall j :: 0 <= j < s.outcome.genreIndex ==> !steps[j].Failed?)
  {
    if steps != [] {
      var init := steps[..|steps| - 1];
      PolicyOutcome(init);
      assert forall j :: 0 <= j < |init| ==> init[j] == steps[j];
    }
  }

  /**
   * The genre loop policy: the run completes, with exit status 0, exactly
   * when no genre's items fail (fetch failures and empty pages do not
   * count), and then every genre was processed in list order. Otherwise it
   * stops with exit status 1 at the first failing genre, after processing
   * just the genres up to that one.
   */
  lemma RunPolicy(genres: seq<Genre>, pages: seq<Page>, t: Timestamp)
    requires |pages| == |genres|
    ensures var s := RunSpec(genres, pages, t);
      && |s.results| <= |genres|
      && (forall j :: 0 <= j < |s.results| ==> s.results[j] == GenreStep(pages[j], genres[j], FolderName(t), t))
      && s.written == SavedFiles(s.results)
      && (s.outcome.Completed? <==>
            forall j :: 0 <= j < |genres| ==> !GenreStep(pages[j], genres[j], FolderName(t), t).Failed?)
      && (s.outcome.Completed? ==> ExitCode(s.outcome) == 0 && |s.results| == |genres|)
      && (s.outcome.Aborted? ==>
            var k := s.outcome.genreIndex;
            && ExitCode(s.outcome) == 1
            && k < |genres| && |s.results| == k + 1
            && GenreStep(pages[k], genres[k], FolderName(t), t) == Failed(s.outcome.error)
            && forall j :: 0 <= j < k ==> !GenreStep(pages[j], genres[j], FolderName(t), t).Failed?)
  {
    PolicyKeepsResults(GenreResults(genres, pages, t));
    PolicyOutcome(GenreResults(genres, pages, t));
  }

  lemma {:induction false} SavedFilesFrom(results: seq<GenreResult>, f: CsvFile)
    requires f in SavedFiles(results)
    ensures exists j :: 0 <= j < |results| && results[j] == Saved(f)
  {
    var init := results[..|results| - 1];
    if f in SavedFiles(init) {
      SavedFilesFrom(init, f);
      var j :| 0 <= j < |init| && init[j] == Saved(f);
      assert results[j] == init[j];
    } else {
      assert results[|results| - 1] == Saved(f);
    }
  }

  /**
   * `f` lies in the day folder of `t`, is named by the minute of `t` and the
   * genre code, holds at least one row, and stamps every row with the date
   * and time of `t`.
   */
  predicate StampedFile(f: CsvFile, t: Timestamp, code: string) {
    && f.folder == FolderName(t) && f.path == FilePath(t, code) && f.rows != []
    && forall row <- f.rows :: |row| == 10 && row[0] == DateCell(t) && row[1] == TimeCell(t)
  }

  /**
   * A file saved by the step of one genre lies in the capture day's folder,
   * is named by the capture minute and the genre's code, and stamps every
   * row with the capture date and time.
   */
  lemma SavedFileStamp(page: Page, genre: Genre, t: Timestamp, f: CsvFile)
    requires GenreStep(page, genre, FolderName(t), t) == Saved(f)
    ensures StampedFile(f, t, genre.en)
  {
    GenreStepCases(page, genre, FolderName(t), t);
    RowsShareStamp(page.items, genre, t);
  }

  /**
   * Every file the run writes comes from a genre before the one that
   * stopped it, sits in the day folder of the capture time, is named by the
   * capture minute and its genre's code, and stamps every row with the same
   * capture date and time.
   */
  lemma WrittenFiles(genres: seq<Genre>, pages: seq<Page>, t: Timestamp)
    requires |pages| == |genres|
    ensures var s := RunSpec(genres, pages, t);
      forall f <- s.written ::
        exists j :: 0 <= j < |genres| && (s.outcome.Aborted? ==> j < s.outcome.genreIndex) && StampedFile(f, t, genres[j].en)
  {
    var steps := GenreResults(genres, pages, t);
    var s := Policy(steps);
    forall f <- s.written
      ensures exists j :: 0 <= j < |genres| && (s.outcome.Aborted? ==> j < s.outcome.genreIndex) && StampedFile(f, t, genres[j].en)
    {
      var j := WrittenComesFrom(steps, f);
      SavedFileStamp(pages[j], genres[j], t, f);
    }
  }

  /** Each file the policy writes is the file of a saved step before the one that stopped it. */
  lemma WrittenComesFrom(steps: seq<GenreResult>, f: CsvFile) returns (j: nat)
    requires f in Policy(steps).written
    ensures j < |steps| && steps[j] == Saved(f)
    ensures Policy(steps).outcome.Aborted? ==> j < Policy(steps).outcome.genreIndex
  {
    var s := Policy(steps);
    PolicyKeepsResults(steps);
    PolicyOutcome(steps);
    SavedFilesFrom(s.results, f);
    j :| 0 <= j < |s.results| && s.results[j] == Saved(f);
  }

  /**
   * Within one run, two genres with different codes never write the same
   * path, so no file of the run overwrites another.
   */
  lemma DistinctGenresDistinctPaths(genres: seq<Genre>, pages: seq<Page>, t: Timestamp, i: nat, j: nat)
    requires |pages| == |genres| && i < j < |genres| && genres[i].en != genres[j].en
    requires GenreStep(pages[i], genres[i], FolderName(t), t).Saved?
    requires GenreStep(pages[j], genres[j], FolderName(t), t).Saved?
    ensures GenreStep(pages[i], genres[i], FolderName(t), t).file.path
         != GenreStep(pages[j], genres[j], FolderName(t), t).file.path
  {
    GenreStepCases(pages[i], genres[i], FolderName(t), t);
    GenreStepCases(pages[j], genres[j], FolderName(t), t);
    FilePathCollidesIff(t, t, genres[i].en, genres[j].en);
  }

  /** The genres the script walks, in this order. */
  const Genres: seq<Genre> := [
    Genre("TTL", "総合", "https://news.yahoo.co.jp/ranking/comment"),
    Genre("domestic", "国内", "https://news.yahoo.co.jp/ranking/comment/domestic"),
    Genre("world", "国際", "https://news.yahoo.co.jp/ranking/comment/world"),
    Genre("business", "経済", "https://news.yahoo.co.jp/ranking/comment/business"),
    Genre("entertainment", "エンタメ", "https://news.yahoo.co.jp/ranking/comment/entertainment"),
    Genre("sports", "スポーツ", "https://news.yahoo.co.jp/ranking/comment/sports"),
    Genre("it-science", "IT・科学", "https://news.yahoo.co.jp/ranking/comment/it-science"),
    Genre("life", "ライフ", "https://news.yahoo.co.jp/ranking/comment/life"),
    Genre("local", "地域", "https://news.yahoo.co.jp/ranking/comment/local")
  ]

  /** The script's genre codes are pairwise different. */
  lemma GenreCodesDistinct()
    ensures forall i, j :: 0 <= i < j < |Genres| ==> Genres[i].en != Genres[j].en
  {
    assert Genres[1].en[0] != Genres[3].en[0];
    assert Genres[2].en[0] != Genres[8].en[0];
  }

  /** In a run of the script, every genre that saves a file saves it under a path of its own. */
  lemma ScriptRunPathsDistinct(pages: seq<Page>, t: Timestamp, i: nat, j: nat)
    requires |pages| == |Genres| && i < j < |Genres|
    requires GenreStep(pages[i], Genres[i], FolderName(t), t).Saved?
    requires GenreStep(pages[j], Genres[j], FolderName(t), t).Saved?
    ensures GenreStep(pages[i], Genres[i], FolderName(t), t).file.path
         != GenreStep(pages[j], Genres[j], FolderName(t), t).file.path
  {
    GenreCodesDistinct();
    DistinctGenresDistinctPaths(Genres, pages, t, i, j);
  }

  // The file system as a value

  /** The directories that exist and the contents (header, then rows) of each file path. */
  datatype Disk = Disk(dirs: set<string>, files: map<string, seq<Row>>)

  /** `os.makedirs` when the folder is missing, then `to_csv`, which replaces any file at the path. */
  function Save(d: Disk, f: CsvFile): (r: Disk)
    ensures r.dirs == d.dirs + {f.folder}
    ensures r.files.Keys == d.files.Keys + {f.path}
    ensures r.files[f.path] == [Columns] + f.rows
    ensures forall p :: p in d.files && p != f.path ==> r.files[p] == d.files[p]
  {
    var dirs := if f.folder !in d.dirs then d.dirs + {f.folder} else d.dirs;
    Disk(dirs, d.files[f.path := [Columns] + f.rows])
  }

  /** The disk after the files are written in order. */
  function SaveAll(d: Disk, files: seq<CsvFile>): Disk
    decreases |files|
  {
    if files == [] then d else SaveAll(Save(d, files[0]), files[1..])
  }

  /**
   * The last write to a path decides its contents: the same minute and genre
   * written again, by a later run, replaces the earlier file.
   */
  lemma {:induction false} LastWriteWins(d: Disk, files: seq<CsvFile>, i: nat)
    requires i < |files|
    requires forall j :: i < j < |files| ==> files[j].path != files[i].path
    ensures files[i].path in SaveAll(d, files).files
    ensures SaveAll(d, files).files[files[i].path] == [Columns] + files[i].rows
    decreases |files|
  {
    if i == 0 {
      KeepsUntouched(Save(d, files[0]), files[1..], files[0].path);
    } else {
      LastWriteWins(Save(d, files[0]), files[1..], i - 1);
    }
  }

  /** A path that no file is written to keeps its contents. */
  lemma {:induction false} KeepsUntouched(d: Disk, files: seq<CsvFile>, p: string)
    requires p in d.files
    requires forall j :: 0 <= j < |files| ==> files[j].path != p
    ensures p in SaveAll(d, files).files && SaveAll(d, files).files[p] == d.files[p]
    decreases |files|
  {
    if files != [] {
      KeepsUntouched(Save(d, files[0]), files[1..], p);
    }
  }

  /**
   * Creating folders is idempotent: afterwards exactly the old folders and
   * the folders of the written files exist, however often each recurs.
   */
  lemma {:induction false} SaveAllDirs(d: Disk, files: seq<CsvFile>)
    ensures SaveAll(d, files).dirs == d.dirs + set f <- files :: f.folder
    decreases |files|
  {
    if files != [] {
      SaveAllDirs(Save(d, files[0]), files[1..]);
      assert files == [files[0]] + files[1..];
      assert (set f <- files :: f.folder) == {files[0].folder} + set f <- files[1..] :: f.folder;
    }
  }
}
