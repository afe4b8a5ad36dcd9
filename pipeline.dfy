/** The main block of get_advisories.py (lines 140-224): choose the run mode
    from the command-line flags, find the advisories, clear the CSV folder,
    build the exploited-vulnerability list, append every advisory to its
    severity file, and, whatever happened, zip the CSV files of the folder
    in use at the end.

    External effects are inputs: `acquired` says whether the git clone or
    pull the mode asks for went ahead (the repository check and the
    confirmation prompt of lines 147-180), `rglob` lists the `*.json` files
    under a path (line 40), `load` is `json.load` of one file (None when it
    raises), `feed` is the parsed response of the feed download (line 56) or
    the error it raised, and `normalize` is `pandas.json_normalize`. */
module Pipeline {
  import opened Json
  import opened Partition
  import opened Archiver
  import Advisory
  import Kev

  const ProjectFolder := "github_advisory_database"
  const SampleAdvisories := "sample_advisories/"
  const CsvFolder := "csv"
  const TestCsvFolder := "csv_test"

  /** Line 187. */
  function ProjectAdvisories(): string {
    ProjectFolder + "/advisories/"
  }

  /** How the advisories are brought up to date before the run. */
  datatype Acquisition = Clone | Pull | NoAcquisition

  /** Where the advisories are read from and where the CSV files go. */
  datatype Mode = Mode(advisoriesPath: string, csvFolder: string)

  datatype Selection = Refused | Selected(acquisition: Acquisition, mode: Mode)

  function FlagCount(download: bool, update: bool, test: bool): nat {
    (if download then 1 else 0) + (if update then 1 else 0) + (if test then 1 else 0)
  }

  /** Lines 141-187: at most one of the three flags; `--download` clones,
      `--update` pulls, and `--test` reads the bundled sample into
      `csv_test`; without `--test` the cloned advisories go to `csv`. */
  function SelectMode(download: bool, update: bool, test: bool): (s: Selection)
    ensures s.Refused? <==> FlagCount(download, update, test) >= 2
    ensures s.Selected? ==>
      && (s.acquisition == Clone <==> download)
      && (s.acquisition == Pull <==> update)
      && (s.acquisition == NoAcquisition <==> !download && !update)
      && (test ==> s.mode == Mode(SampleAdvisories, TestCsvFolder))
      && (!test ==> s.mode == Mode(ProjectAdvisories(), CsvFolder))
  {
    if FlagCount(download, update, test) >= 2 then Refused
    else
      var acquisition := if download then Clone else if update then Pull else NoAcquisition;
      if test then Selected(acquisition, Mode(SampleAdvisories, TestCsvFolder))
      else Selected(acquisition, Mode(ProjectAdvisories(), CsvFolder))
  }

  /** The value of the global `csv_folder` when the `finally` of line 223
      runs: line 185 moves it to `csv_test` only in an accepted test run. */
  function CsvFolderAtExit(download: bool, update: bool, test: bool): (folder: string)
    ensures folder == TestCsvFolder <==> SelectMode(download, update, test).Selected? && test
    ensures SelectMode(download, update, test).Selected? ==> folder == SelectMode(download, update, test).mode.csvFolder
    ensures SelectMode(download, update, test).Refused? ==> folder == CsvFolder
  {
    if test && !download && !update then TestCsvFolder else CsvFolder
  }

  // ---------------------------------------------------------------------
  // One advisory (add_to_csv, lines 75-90).

  /** The operating system reads a run of slashes in a path as one, so the
      slashes a bucket starts with vanish from `csv_folder + "/" + bucket`. */
  function StripLeadingSlashes(s: string): (r: string)
    ensures r == [] || r[0] != '/'
    ensures |r| <= |s| && s[|s| - |r|..] == r
    ensures forall i :: 0 <= i < |s| - |r| ==> s[i] == '/'
  {
    if s != [] && s[0] == '/' then StripLeadingSlashes(s[1..]) else s
  }

  /** What appending one advisory does: the file to append to and the row,
      or the exception that stops it before anything is written. A parse
      failure raises at line 75 and a transformation failure at lines 77-82.
      A NUL in the bucket makes the file name unusable, and `to_csv`
      raises. A slash left in the bucket once its leading slashes are gone
      names a file in a sub-folder that does not exist (the folder was just
      emptied), so the write of line 90 raises. Otherwise the row goes to the
      file the operating system resolves the name of line 83 to; a name
      longer than the file system allows is not told apart here. */
  function Prepare(doc: Option<Json>, cveList: seq<Json>, csvFolder: string, normalize: Json -> Row): Result<(string, Row)> {
    match doc
    case None => Err(DecodeError)
    case Some(data) =>
      match Advisory.Transform(data, cveList, csvFolder)
      case Err(e) => Err(e)
      case Ok(t) =>
        var name := StripLeadingSlashes(t.bucket);
        if '\0' in t.bucket then Err(ValueError)
        else if '/' in name then Err(OSError)
        else Ok((Advisory.CsvPath(csvFolder, name), normalize(t.record)))
  }

  /** The advisory is written exactly when it parses, transforms, and has a
      bucket without NUL and without a slash past its leading ones. It then
      goes to `csvFolder/name.csv`, with `name` the bucket without its
      leading slashes, which is the literal file name of line 83 when there
      are none; the glob of the archiver finds that file; the row is the
      flattened transformed record. */
  lemma PrepareOutcome(doc: Option<Json>, cveList: seq<Json>, csvFolder: string, normalize: Json -> Row)
    ensures doc.None? ==> Prepare(doc, cveList, csvFolder, normalize) == Err(DecodeError)
    ensures doc.Some? ==>
      var tr := Advisory.Transform(doc.value, cveList, csvFolder);
      && (tr.Err? ==> Prepare(doc, cveList, csvFolder, normalize) == Err(tr.error))
      && (tr.Ok? && '\0' in tr.value.bucket ==> Prepare(doc, cveList, csvFolder, normalize) == Err(ValueError))
      && (Prepare(doc, cveList, csvFolder, normalize).Ok? <==>
            tr.Ok? && '\0' !in tr.value.bucket && '/' !in StripLeadingSlashes(tr.value.bucket))
    ensures Prepare(doc, cveList, csvFolder, normalize).Ok? ==>
      var t := Advisory.Transform(doc.value, cveList, csvFolder).value;
      var target := Prepare(doc, cveList, csvFolder, normalize).value;
      && target.0 == Advisory.CsvPath(csvFolder, StripLeadingSlashes(t.bucket))
      && (t.bucket == [] || t.bucket[0] != '/' ==> target.0 == t.csvFile)
      && target.1 == normalize(t.record)
      && IsCsvIn(csvFolder, target.0)
  {
    if Prepare(doc, cveList, csvFolder, normalize).Ok? {
      var t := Advisory.Transform(doc.value, cveList, csvFolder).value;
      Advisory.BucketAndFile(doc.value, cveList, csvFolder);
      CsvPathGlobbed(csvFolder, StripLeadingSlashes(t.bucket));
    }
  }

  lemma PrepareInFolder(doc: Option<Json>, cveList: seq<Json>, csvFolder: string, normalize: Json -> Row)
    ensures Prepare(doc, cveList, csvFolder, normalize).Ok? ==>
      IsCsvIn(csvFolder, Prepare(doc, cveList, csvFolder, normalize).value.0)
  {
    PrepareOutcome(doc, cveList, csvFolder, normalize);
  }

  /** An advisory without `aliases`, `database_specific` or
      `database_specific.severity` is never written. */
  lemma MissingKeysNotWritten(data: Json, cveList: seq<Json>, csvFolder: string, normalize: Json -> Row)
    requires data.JObject?
    requires Advisory.AliasesKey !in Keys(data.fields)
      || Advisory.DatabaseSpecificKey !in Keys(data.fields)
      || (GetKey(data, Advisory.DatabaseSpecificKey).Ok?
          && GetKey(GetKey(data, Advisory.DatabaseSpecificKey).value, Advisory.SeverityKey).Err?)
    ensures Prepare(Some(data), cveList, csvFolder, normalize).Err?
  {
    Advisory.MissingKeysFail(data, cveList, csvFolder);
  }

  /** Lines 75-90 for one file. The store changes only when the advisory is
      written, and then by exactly one append; a failing advisory leaves it
      as it was, since every write comes after the lines that can raise. */
  method AddToCsv(disk: Disk, doc: Option<Json>, cveList: seq<Json>, csvFolder: string, normalize: Json -> Row)
    returns (r: Result<(string, Row)>)
    modifies disk
    ensures r == Prepare(doc, cveList, csvFolder, normalize)
    ensures r.Ok? ==> disk.csv == Appended(old(disk.csv), r.value.0, r.value.1)
    ensures r.Err? ==> disk.csv == old(disk.csv)
    ensures disk.zips == old(disk.zips)
  {
    if doc.None? {
      return Err(DecodeError);
    }
    var t := Advisory.Transform(doc.value, cveList, csvFolder);
    if t.Err? {
      return Err(t.error);
    }
    var df := normalize(t.value.record);
    var name := StripLeadingSlashes(t.value.bucket);
    if '\0' in t.value.bucket {
      return Err(ValueError);
    }
    if '/' in name {
      return Err(OSError);
    }
    var csvFile := Advisory.CsvPath(csvFolder, name);
    disk.Append(csvFile, df);
    return Ok((csvFile, df));
  }

  // ---------------------------------------------------------------------
  // The whole corpus.

  /** The appends the advisories of `corpus` make, in order: the failing
      ones are dropped, as the exceptions of the workers are never read. */
  function Successes(corpus: seq<string>, load: string -> Option<Json>, cveList: seq<Json>, csvFolder: string, normalize: Json -> Row)
    : seq<(string, Row)>
  {
    if corpus == [] then []
    else
      var rest := Successes(corpus[..|corpus| - 1], load, cveList, csvFolder, normalize);
      match Prepare(load(corpus[|corpus| - 1]), cveList, csvFolder, normalize)
      case Ok(target) => rest + [target]
      case Err(_) => rest
  }

  /** Every file the run writes is a `*.csv` file directly inside the CSV
      folder, and there is at most one append per advisory. */
  lemma {:induction false} SuccessesInFolder(corpus: seq<string>, load: string -> Option<Json>, cveList: seq<Json>, csvFolder: string, normalize: Json -> Row)
    ensures var appends := Successes(corpus, load, cveList, csvFolder, normalize);
      && |appends| <= |corpus|
      && forall i :: 0 <= i < |appends| ==> IsCsvIn(csvFolder, appends[i].0) && Under(csvFolder, appends[i].0)
  {
    if corpus != [] {
      var prefix := corpus[..|corpus| - 1];
      SuccessesInFolder(prefix, load, cveList, csvFolder, normalize);
      PrepareInFolder(load(corpus[|corpus| - 1]), cveList, csvFolder, normalize);
    }
  }

  lemma SuccessesStep(files: map<string, CsvFile>, corpus: seq<string>, i: nat, load: string -> Option<Json>, cveList: seq<Json>, csvFolder: string, normalize: Json -> Row)
    requires i < |corpus|
    ensures var before := Successes(corpus[..i], load, cveList, csvFolder, normalize);
      var r := Prepare(load(corpus[i]), cveList, csvFolder, normalize);
      && Successes(corpus[..i + 1], load, cveList, csvFolder, normalize) == (if r.Ok? then before + [r.value] else before)
      && (r.Ok? ==> AppendAll(files, before + [r.value]) == Appended(AppendAll(files, before), r.value.0, r.value.1))
  {
    assert corpus[..i + 1][..i] == corpus[..i];
    var before := Successes(corpus[..i], load, cveList, csvFolder, normalize);
    var r := Prepare(load(corpus[i]), cveList, csvFolder, normalize);
    if r.Ok? {
      assert (before + [r.value])[..|before|] == before;
    }
  }

  /** Lines 215-218: every advisory of the corpus is appended in turn; the
      ones that raise leave the store alone. */
  method AppendCorpus(disk: Disk, corpus: seq<string>, load: string -> Option<Json>, cveList: seq<Json>, csvFolder: string, normalize: Json -> Row)
    modifies disk
    ensures disk.csv == AppendAll(old(disk.csv), Successes(corpus, load, cveList, csvFolder, normalize))
    ensures disk.zips == old(disk.zips)
  {
    for i := 0 to |corpus|
      invariant disk.csv == AppendAll(old(disk.csv), Successes(corpus[..i], load, cveList, csvFolder, normalize))
      invariant disk.zips == old(disk.zips)
    {
      SuccessesStep(old(disk.csv), corpus, i, load, cveList, csvFolder, normalize);
      var _ := AddToCsv(disk, load(corpus[i]), cveList, csvFolder, normalize);
    }
    assert corpus[..|corpus|] == corpus;
  }

  /** How the try block of lines 140-218 ended. */
  datatype Outcome =
    | ConflictingModes                          // line 143
    | AcquisitionStopped                        // lines 149, 154 and 180
    | NoAdvisories                              // line 193
    | FeedFailed(error: Error)                  // lines 56 and 62 raise
    | Completed(cveList: seq<Json>)

  /** Lines 140-218. A refused mode, a stopped acquisition or an empty corpus
      ends the run before the CSV folder is cleared or the feed is used, so
      the disk is untouched. Otherwise the folder is cleared, and a feed
      that cannot be read ends the run there. Otherwise every advisory is
      appended in turn, the folder ends up holding exactly the files those
      appends create, one row per written advisory, and nothing outside it
      changes. */
  method Ingest(disk: Disk, download: bool, update: bool, test: bool, acquired: bool,
                rglob: string -> seq<string>, load: string -> Option<Json>, feed: Result<Json>, normalize: Json -> Row)
    returns (outcome: Outcome)
    modifies disk
    ensures var sel := SelectMode(download, update, test);
      && (outcome == ConflictingModes <==> sel.Refused?)
      && (outcome == AcquisitionStopped <==> sel.Selected? && sel.acquisition != NoAcquisition && !acquired)
      && (outcome == NoAdvisories <==>
            sel.Selected? && (sel.acquisition == NoAcquisition || acquired) && rglob(sel.mode.advisoriesPath) == [])
    ensures outcome == ConflictingModes || outcome == AcquisitionStopped || outcome == NoAdvisories ==>
      disk.csv == old(disk.csv) && disk.zips == old(disk.zips)
    ensures outcome.FeedFailed? || outcome.Completed? ==>
      var sel := SelectMode(download, update, test);
      && sel.Selected? && (sel.acquisition == NoAcquisition || acquired) && rglob(sel.mode.advisoriesPath) != []
      && disk.zips == Outside(old(disk.zips), sel.mode.csvFolder)
    ensures outcome.FeedFailed? <==>
      var sel := SelectMode(download, update, test);
      && sel.Selected? && (sel.acquisition == NoAcquisition || acquired) && rglob(sel.mode.advisoriesPath) != []
      && !(feed.Ok? && Kev.FeedUsable(feed.value))
    ensures outcome.FeedFailed? ==>
      && disk.csv == Outside(old(disk.csv), SelectMode(download, update, test).mode.csvFolder)
      && (feed.Err? ==> outcome.error == feed.error)
    ensures outcome.Completed? ==>
      var mode := SelectMode(download, update, test).mode;
      var corpus := rglob(mode.advisoriesPath);
      var appends := Successes(corpus, load, outcome.cveList, mode.csvFolder, normalize);
      && feed.Ok? && Kev.ListsFeed(feed.value, outcome.cveList)
      && disk.csv == AppendAll(Outside(old(disk.csv), mode.csvFolder), appends)
      && Partitions(disk.csv, mode.csvFolder) == AppendAll(map[], appends)
      && Outside(disk.csv, mode.csvFolder) == Outside(old(disk.csv), mode.csvFolder)
      && TotalRows(Partitions(disk.csv, mode.csvFolder)) == |appends| <= |corpus|
  {
    var sel := SelectMode(download, update, test);
    if sel.Refused? {
      return ConflictingModes;
    }
    if sel.acquisition != NoAcquisition && !acquired {
      return AcquisitionStopped;
    }
    var advisories := rglob(sel.mode.advisoriesPath);
    if |advisories| == 0 {
      return NoAdvisories;
    }
    var csvFolder := sel.mode.csvFolder;
    disk.ClearCsvFolder(csvFolder);
    if feed.Err? {
      return FeedFailed(feed.error);
    }
    var ids := Kev.GetCveList(feed.value);
    if ids.Err? {
      return FeedFailed(ids.error);
    }
    var cveList := ids.value;
    AppendCorpus(disk, advisories, load, cveList, csvFolder, normalize);
    var appends := Successes(advisories, load, cveList, csvFolder, normalize);
    SuccessesInFolder(advisories, load, cveList, csvFolder, normalize);
    AppendAllAfterClear(old(disk.csv), appends, csvFolder);
    return Completed(cveList);
  }

  // ---------------------------------------------------------------------
  // The finally block (lines 223-224).

  /** Deleting the globbed files of a folder that holds only `*.csv` files
      empties it and touches nothing outside it. */
  lemma ZipEmptiesFolder(csv: map<string, CsvFile>, folder: string)
    requires forall p :: p in csv && Under(folder, p) ==> IsCsvIn(folder, p)
    ensures var left := map p | p in csv && !IsCsvIn(folder, p) :: csv[p];
      Partitions(left, folder) == map[] && Outside(left, folder) == Outside(csv, folder)
  {
  }

  /** Every globbed file gets an archive, and when no two of them share an
      archive name each archive holds its own file. */
  lemma ZipArchivesEach(csv: map<string, CsvFile>, zips: map<string, Archive>, folder: string,
                        written: map<string, CsvFile>, listing: seq<string>)
    requires Partitions(csv, folder) == written
    requires forall p :: p in written ==> IsCsvIn(folder, p)
    requires forall p :: p in listing <==> p in csv && IsCsvIn(folder, p)
    requires forall k :: 0 <= k < |listing| ==> listing[k] in csv
    requires Distinct(listing)
    ensures forall p :: p in written ==> ArchiveName(p) in Zipped(zips, csv, listing)
    ensures ArchiveNamesDistinct(written) ==>
      forall p :: p in written ==> Zipped(zips, csv, listing)[ArchiveName(p)] == Archive(Basename(p), written[p])
  {
    forall p | p in written
      ensures ArchiveName(p) in Zipped(zips, csv, listing)
      ensures ArchiveNamesDistinct(written) ==> Zipped(zips, csv, listing)[ArchiveName(p)] == Archive(Basename(p), written[p])
    {
      var k :| 0 <= k < |listing| && listing[k] == p;
      if ArchiveNamesDistinct(written) {
        forall j | k < j < |listing|
          ensures ArchiveName(listing[j]) != ArchiveName(listing[k])
        {
          assert listing[j] in listing;
          assert listing[j] in Partitions(csv, folder);
        }
        ZippedLastWins(zips, csv, listing, k);
      } else {
        ZippedNames(zips, csv, listing);
        assert ArchiveName(listing[k]) == ArchiveName(p);
      }
    }
  }

  /** Every zipped file of a dot-free folder is archived inside it. */
  lemma ListedArchivesInside(csv: map<string, CsvFile>, folder: string, written: map<string, CsvFile>, listing: seq<string>)
    requires '.' !in folder
    requires Partitions(csv, folder) == written
    requires forall p :: p in listing <==> p in csv && IsCsvIn(folder, p)
    ensures forall k :: 0 <= k < |listing| ==> Under(folder, ArchiveName(listing[k])) && listing[k] in written
  {
    forall k | 0 <= k < |listing|
      ensures Under(folder, ArchiveName(listing[k])) && listing[k] in written
    {
      assert listing[k] in listing;
      ArchiveNameUnder(folder, listing[k]);
    }
  }

  /** Zipping into a dot-free folder that held no archive: afterwards the
      folder holds an archive exactly under the archive name of some zipped
      file, and the archives outside it are untouched. */
  lemma ZipArchiveNames(csv: map<string, CsvFile>, zips: map<string, Archive>, folder: string,
                        written: map<string, CsvFile>, listing: seq<string>)
    requires '.' !in folder
    requires Partitions(zips, folder) == map[]
    requires Partitions(csv, folder) == written
    requires forall p :: p in written ==> IsCsvIn(folder, p)
    requires forall p :: p in listing <==> p in csv && IsCsvIn(folder, p)
    requires forall k :: 0 <= k < |listing| ==> listing[k] in csv
    ensures forall a :: a in Partitions(Zipped(zips, csv, listing), folder) <==>
      exists p :: p in written && ArchiveName(p) == a
  {
    ZippedNames(zips, csv, listing);
    ListedArchivesInside(csv, folder, written, listing);
    var zipped := Zipped(zips, csv, listing);
    forall a | a in Partitions(zipped, folder)
      ensures exists p :: p in written && ArchiveName(p) == a
    {
      assert a !in Partitions(zips, folder);
      var k :| 0 <= k < |listing| && ArchiveName(listing[k]) == a;
    }
    forall p | p in written
      ensures ArchiveName(p) in Partitions(zipped, folder)
    {
      assert p in listing;
      var k :| 0 <= k < |listing| && listing[k] == p;
    }
  }

  /** Zipping into a dot-free folder that held no archive: every archive in
      the folder afterwards holds one of the partitions whose archive name
      it is, under that partition's base name. */
  lemma ZipArchiveContents(csv: map<string, CsvFile>, zips: map<string, Archive>, folder: string,
                           written: map<string, CsvFile>, listing: seq<string>)
    requires '.' !in folder
    requires Partitions(zips, folder) == map[]
    requires Partitions(csv, folder) == written
    requires forall p :: p in listing <==> p in csv && IsCsvIn(folder, p)
    requires forall k :: 0 <= k < |listing| ==> listing[k] in csv
    ensures forall a :: a in Partitions(Zipped(zips, csv, listing), folder) ==>
      exists p :: p in written && ArchiveName(p) == a && Zipped(zips, csv, listing)[a] == Archive(Basename(p), written[p])
  {
    ZippedNames(zips, csv, listing);
    ListedArchivesInside(csv, folder, written, listing);
    var zipped := Zipped(zips, csv, listing);
    forall a | a in Partitions(zipped, folder)
      ensures exists p :: p in written && ArchiveName(p) == a && zipped[a] == Archive(Basename(p), written[p])
    {
      assert a !in Partitions(zips, folder);
      ZippedHoldsListed(zips, csv, listing, a);
      var k :| (0 <= k < |listing| && ArchiveName(listing[k]) == a &&
                zipped[a] == Archive(Basename(listing[k]), csv[listing[k]]));
      assert listing[k] in written;
    }
  }

  /** Zipping into a dot-free folder leaves the archives outside it alone. */
  lemma ZipOutsideUntouched(csv: map<string, CsvFile>, zips: map<string, Archive>, folder: string,
                            written: map<string, CsvFile>, listing: seq<string>)
    requires '.' !in folder
    requires Partitions(csv, folder) == written
    requires forall p :: p in listing <==> p in csv && IsCsvIn(folder, p)
    requires forall k :: 0 <= k < |listing| ==> listing[k] in csv
    ensures Outside(Zipped(zips, csv, listing), folder) == Outside(zips, folder)
  {
    ZippedNames(zips, csv, listing);
    ListedArchivesInside(csv, folder, written, listing);
  }

  /** Zipping a folder that holds no file: nothing is listed, deleted or
      archived. */
  lemma ZipNothing(csv: map<string, CsvFile>, zips: map<string, Archive>, folder: string, listing: seq<string>)
    requires Partitions(csv, folder) == map[]
    requires forall p :: p in listing <==> p in csv && IsCsvIn(folder, p)
    ensures listing == []
    ensures (map p | p in csv && !IsCsvIn(folder, p) :: csv[p]) == csv
    ensures Zipped(zips, csv, listing) == zips
  {
    assert forall p :: p in listing ==> p in Partitions(csv, folder);
    if listing != [] {
      HeadListed(listing);
      assert false;
    }
  }

  lemma HeadListed(listing: seq<string>)
    requires listing != []
    ensures listing[0] in listing
  {
  }

  /** Zipping the folder of a run whose feed could not be read: the folder
      was cleared, so nothing is archived and nothing changes. */
  lemma ZipAfterFeedFailed(csv0: map<string, CsvFile>, zips0: map<string, Archive>,
                           csv: map<string, CsvFile>, zips: map<string, Archive>, folder: string,
                           listing: seq<string>)
    requires csv == Outside(csv0, folder) && zips == Outside(zips0, folder)
    requires forall p :: p in listing <==> p in csv && IsCsvIn(folder, p)
    ensures listing == []
    ensures (map p | p in csv && !IsCsvIn(folder, p) :: csv[p]) == Outside(csv0, folder)
    ensures Zipped(zips, csv, listing) == Outside(zips0, folder)
  {
    ClearedFolder(csv0, folder);
    ZipNothing(csv, zips, folder, listing);
  }

  /** The archives after the `finally` of a completed run, given those before
      the run: every partition has an archive, holding its own file when no
      two partitions share an archive name; the folder's archives are
      exactly the partitions' archive names, each holding one partition of
      that name; the archives outside the folder are those before the run. */
  ghost predicate PartitionsArchived(zips0: map<string, Archive>, zips: map<string, Archive>, folder: string,
                                     written: map<string, CsvFile>)
  {
    && (forall p :: p in written ==> ArchiveName(p) in zips)
    && (ArchiveNamesDistinct(written) ==>
          forall p :: p in written ==> zips[ArchiveName(p)] == Archive(Basename(p), written[p]))
    && (forall a :: a in Partitions(zips, folder) <==> exists p :: p in written && ArchiveName(p) == a)
    && (forall a :: a in Partitions(zips, folder) ==>
          exists p :: p in written && ArchiveName(p) == a && zips[a] == Archive(Basename(p), written[p]))
    && Outside(zips, folder) == Outside(zips0, folder)
  }

  /** Zipping the folder of a completed run: the folder held exactly the
      files its appends created, so afterwards it holds no CSV file, and
      every one of those files has an archive. */
  lemma ZipAfterIngest(csv0: map<string, CsvFile>, zips0: map<string, Archive>,
                       csv: map<string, CsvFile>, zips: map<string, Archive>, folder: string,
                       appends: seq<(string, Row)>, listing: seq<string>)
    requires '.' !in folder
    requires zips == Outside(zips0, folder)
    requires Outside(csv, folder) == Outside(csv0, folder)
    requires Partitions(csv, folder) == AppendAll(map[], appends)
    requires forall i :: 0 <= i < |appends| ==> IsCsvIn(folder, appends[i].0)
    requires forall p :: p in listing <==> p in csv && IsCsvIn(folder, p)
    requires Distinct(listing)
    ensures var left := map p | p in csv && !IsCsvIn(folder, p) :: csv[p];
      Partitions(left, folder) == map[] && Outside(left, folder) == Outside(csv0, folder)
    ensures forall k :: 0 <= k < |listing| ==> listing[k] in csv
    ensures PartitionsArchived(zips0, Zipped(zips, csv, listing), folder, AppendAll(map[], appends))
  {
    ClearedFolder(zips0, folder);
    var written := AppendAll(map[], appends);
    AppendAllKeys(map[], appends);
    assert forall p :: p in written ==> IsCsvIn(folder, p);
    forall p | p in csv && Under(folder, p)
      ensures IsCsvIn(folder, p)
    {
      assert p in Partitions(csv, folder);
    }
    ZipEmptiesFolder(csv, folder);
    assert forall k :: 0 <= k < |listing| ==> listing[k] in listing;
    ZipArchivesEach(csv, zips, folder, written, listing);
    ZipArchiveNames(csv, zips, folder, written, listing);
    ZipArchiveContents(csv, zips, folder, written, listing);
    ZipOutsideUntouched(csv, zips, folder, written, listing);
  }

  /** Lines 140-224: the try block, then, whatever ended it, the CSV files
      of the folder in use are zipped and deleted. No CSV file is left in
      that folder. A run that stops early still archives the CSV files a
      previous run left in `csv/` (or `csv_test/`). A completed run leaves
      nothing in the folder but archives, one per archive name, each holding
      its partition file when no two partitions share an archive name. */
  method Run(disk: Disk, download: bool, update: bool, test: bool, acquired: bool,
             rglob: string -> seq<string>, load: string -> Option<Json>, feed: Result<Json>, normalize: Json -> Row)
    returns (outcome: Outcome, archived: seq<string>)
    modifies disk
    ensures forall p :: p in disk.csv ==> !IsCsvIn(CsvFolderAtExit(download, update, test), p)
    ensures outcome == ConflictingModes || outcome == AcquisitionStopped || outcome == NoAdvisories ==>
      var folder := CsvFolderAtExit(download, update, test);
      && (forall p :: p in archived <==> p in old(disk.csv) && IsCsvIn(folder, p))
      && disk.csv == (map p | p in old(disk.csv) && !IsCsvIn(folder, p) :: old(disk.csv)[p])
      && disk.zips == Zipped(old(disk.zips), old(disk.csv), archived)
    ensures outcome.Completed? ==> SelectMode(download, update, test).Selected?
    ensures outcome.Completed? ==>
      var mode := SelectMode(download, update, test).mode;
      var written := AppendAll(map[], Successes(rglob(mode.advisoriesPath), load, outcome.cveList, mode.csvFolder, normalize));
      && Partitions(disk.csv, mode.csvFolder) == map[]
      && Outside(disk.csv, mode.csvFolder) == Outside(old(disk.csv), mode.csvFolder)
      && PartitionsArchived(old(disk.zips), disk.zips, mode.csvFolder, written)
    ensures outcome.FeedFailed? ==> SelectMode(download, update, test).Selected?
    ensures outcome.FeedFailed? ==>
      var folder := SelectMode(download, update, test).mode.csvFolder;
      && archived == []
      && disk.csv == Outside(old(disk.csv), folder)
      && disk.zips == Outside(old(disk.zips), folder)
  {
    outcome := Ingest(disk, download, update, test, acquired, rglob, load, feed, normalize);
    var folder := CsvFolderAtExit(download, update, test);
    ghost var csv, zips := disk.csv, disk.zips;
    archived := ZipAndDelete(disk, folder);
    if outcome.Completed? {
      var mode := SelectMode(download, update, test).mode;
      assert folder == mode.csvFolder;
      var appends := Successes(rglob(mode.advisoriesPath), load, outcome.cveList, mode.csvFolder, normalize);
      SuccessesInFolder(rglob(mode.advisoriesPath), load, outcome.cveList, mode.csvFolder, normalize);
      ZipAfterIngest(old(disk.csv), old(disk.zips), csv, zips, folder, appends, archived);
    } else if outcome.FeedFailed? {
      ZipAfterFeedFailed(old(disk.csv), old(disk.zips), csv, zips, folder, archived);
    } else {
      assert csv == old(disk.csv) && zips == old(disk.zips);
    }
  }
}
