/** `zip_and_delete_csv` (get_advisories.py, lines 94-100): every `*.csv`
    file directly inside the CSV folder is written into a zip archive named
    after the part of its path before the first `.`, and then deleted. */
module Archiver {
  import opened Json
  import opened Partition
  import Advisory

  /** `s.split(".")[0]`: everything before the first dot. */
  function BeforeFirstDot(s: string): string
  {
    if s == [] || s[0] == '.' then [] else [s[0]] + BeforeFirstDot(s[1..])
  }

  /** Line 97 and the name on line 99. */
  function ArchiveName(csvPath: string): string {
    BeforeFirstDot(csvPath) + ".zip"
  }

  /** `os.path.basename`: everything after the last slash. */
  function Basename(path: string): string {
    if path == [] || path[|path| - 1] == '/' then []
    else Basename(path[..|path| - 1]) + [path[|path| - 1]]
  }

  /** What `Path(folder).glob("*.csv")` finds: a file directly inside the
      folder whose name ends in `.csv`. */
  predicate IsCsvIn(folder: string, path: string) {
    && Under(folder, path)
    && var name := path[|folder| + 1..];
       '/' !in name && |name| >= 4 && name[|name| - 4..] == ".csv"
  }

  predicate Distinct(paths: seq<string>) {
    forall i, j :: 0 <= i < j < |paths| ==> paths[i] != paths[j]
  }

  /** The archives after zipping the files of `listing` in that order: each
      one writes its archive under its name, replacing any archive already
      there. */
  function Zipped(zips: map<string, Archive>, csv: map<string, CsvFile>, listing: seq<string>): map<string, Archive>
    requires forall i :: 0 <= i < |listing| ==> listing[i] in csv
  {
    if listing == [] then zips
    else
      var p := listing[|listing| - 1];
      Zipped(zips, csv, listing[..|listing| - 1])[ArchiveName(p) := Archive(Basename(p), csv[p])]
  }

  /** Line 95: the `*.csv` files directly inside `folder`, each once, in the
      order the directory listing gives (any order). */
  method GlobCsv(csv: map<string, CsvFile>, folder: string) returns (listing: seq<string>)
    ensures forall p :: p in listing <==> p in csv && IsCsvIn(folder, p)
    ensures Distinct(listing)
  {
    var left := set p | p in csv && IsCsvIn(folder, p);
    listing := [];
    while left != {}
      invariant forall p :: p in listing || p in left <==> p in csv && IsCsvIn(folder, p)
      invariant forall p :: p in listing ==> p !in left
      invariant Distinct(listing)
      decreases left
    {
      var p :| p in left;
      listing := listing + [p];
      left := left - {p};
    }
  }

  /** Lines 95-100: every `*.csv` file directly inside the folder is zipped,
      in the order returned, and deleted; nothing else is deleted. */
  method ZipAndDelete(disk: Disk, folder: string) returns (listing: seq<string>)
    modifies disk
    ensures forall p :: p in listing <==> p in old(disk.csv) && IsCsvIn(folder, p)
    ensures Distinct(listing)
    ensures disk.csv == map p | p in old(disk.csv) && !IsCsvIn(folder, p) :: old(disk.csv)[p]
    ensures disk.zips == Zipped(old(disk.zips), old(disk.csv), listing)
  {
    listing := GlobCsv(disk.csv, folder);
    ghost var csv0, zips0 := disk.csv, disk.zips;
    for i := 0 to |listing|
      invariant disk.csv == Unzipped(csv0, listing[..i])
      invariant disk.zips == Zipped(zips0, csv0, listing[..i])
    {
      var csvSeverity := listing[i];
      UnzippedStep(csv0, listing, i);
      disk.zips := disk.zips[ArchiveName(csvSeverity) := Archive(Basename(csvSeverity), disk.csv[csvSeverity])];
      disk.csv := disk.csv - {csvSeverity};
    }
    UnzippedAll(csv0, listing, folder);
  }

  /** The CSV files left once the files of `zipped` are deleted. */
  function Unzipped(csv: map<string, CsvFile>, zipped: seq<string>): map<string, CsvFile> {
    map p | p in csv && p !in zipped :: csv[p]
  }

  lemma UnzippedStep(csv0: map<string, CsvFile>, listing: seq<string>, i: nat)
    requires i < |listing| && Distinct(listing)
    requires forall k :: 0 <= k < |listing| ==> listing[k] in csv0
    ensures listing[i] in Unzipped(csv0, listing[..i])
    ensures Unzipped(csv0, listing[..i])[listing[i]] == csv0[listing[i]]
    ensures Unzipped(csv0, listing[..i + 1]) == Unzipped(csv0, listing[..i]) - {listing[i]}
    ensures listing[..i + 1][..i] == listing[..i]
  {
  }

  lemma UnzippedAll(csv0: map<string, CsvFile>, listing: seq<string>, folder: string)
    requires forall p :: p in listing <==> p in csv0 && IsCsvIn(folder, p)
    ensures listing[..|listing|] == listing
    ensures Unzipped(csv0, listing) == map p | p in csv0 && !IsCsvIn(folder, p) :: csv0[p]
  {
  }

  // ---------------------------------------------------------------------
  // What zipping leaves behind.

  /** After zipping, an archive exists under a name exactly when it existed
      before or some zipped file maps to that name; an archive under any
      other name is untouched. */
  lemma {:induction false} ZippedNames(zips: map<string, Archive>, csv: map<string, CsvFile>, listing: seq<string>)
    requires forall i :: 0 <= i < |listing| ==> listing[i] in csv
    ensures forall a :: a in Zipped(zips, csv, listing) <==>
      a in zips || exists i :: 0 <= i < |listing| && ArchiveName(listing[i]) == a
    ensures forall a :: a in zips && (forall i :: 0 <= i < |listing| ==> ArchiveName(listing[i]) != a) ==>
      Zipped(zips, csv, listing)[a] == zips[a]
  {
    if listing != [] {
      var prefix := listing[..|listing| - 1];
      ZippedNames(zips, csv, prefix);
      forall a | a in Zipped(zips, csv, listing)
        ensures a in zips || exists i :: 0 <= i < |listing| && ArchiveName(listing[i]) == a
      {
        if a != ArchiveName(listing[|listing| - 1]) && a !in zips {
          var i :| 0 <= i < |prefix| && ArchiveName(prefix[i]) == a;
          assert listing[i] == prefix[i];
        }
      }
      forall a | exists i :: 0 <= i < |listing| && ArchiveName(listing[i]) == a
        ensures a in Zipped(zips, csv, listing)
      {
        var i :| 0 <= i < |listing| && ArchiveName(listing[i]) == a;
        if i < |prefix| {
          assert prefix[i] == listing[i];
        }
      }
      forall a | a in zips && (forall i :: 0 <= i < |listing| ==> ArchiveName(listing[i]) != a)
        ensures Zipped(zips, csv, listing)[a] == zips[a]
      {
        assert forall i :: 0 <= i < |prefix| ==> prefix[i] == listing[i];
      }
    }
  }

  /** The archive under a name holds the LAST zipped file that maps to it:
      a file zipped later under the same name replaces it. */
  lemma {:induction false} ZippedLastWins(zips: map<string, Archive>, csv: map<string, CsvFile>, listing: seq<string>, i: nat)
    requires forall k :: 0 <= k < |listing| ==> listing[k] in csv
    requires i < |listing|
    requires forall j :: i < j < |listing| ==> ArchiveName(listing[j]) != ArchiveName(listing[i])
    ensures ArchiveName(listing[i]) in Zipped(zips, csv, listing)
    ensures Zipped(zips, csv, listing)[ArchiveName(listing[i])] == Archive(Basename(listing[i]), csv[listing[i]])
  {
    var prefix := listing[..|listing| - 1];
    if i < |listing| - 1 {
      assert prefix[i] == listing[i];
      forall j | i < j < |prefix|
        ensures ArchiveName(prefix[j]) != ArchiveName(prefix[i])
      {
        assert prefix[j] == listing[j];
      }
      ZippedLastWins(zips, csv, prefix, i);
    }
  }

  /** Every archive that some zipped file maps to holds one of those files,
      under its base name. */
  lemma {:induction false} ZippedHoldsListed(zips: map<string, Archive>, csv: map<string, CsvFile>, listing: seq<string>, a: string)
    requires forall k :: 0 <= k < |listing| ==> listing[k] in csv
    requires exists k :: 0 <= k < |listing| && ArchiveName(listing[k]) == a
    ensures a in Zipped(zips, csv, listing)
    ensures exists k :: (0 <= k < |listing| && ArchiveName(listing[k]) == a &&
                         Zipped(zips, csv, listing)[a] == Archive(Basename(listing[k]), csv[listing[k]]))
  {
    var last := |listing| - 1;
    if ArchiveName(listing[last]) != a {
      var prefix := listing[..last];
      var k :| 0 <= k < |listing| && ArchiveName(listing[k]) == a;
      assert prefix[k] == listing[k];
      ZippedHoldsListed(zips, csv, prefix, a);
      var j :| (0 <= j < |prefix| && ArchiveName(prefix[j]) == a &&
                Zipped(zips, csv, prefix)[a] == Archive(Basename(prefix[j]), csv[prefix[j]]));
      assert prefix[j] == listing[j];
    }
  }

  /** When no two zipped files share an archive name, every zipped file ends
      up in its own archive, under its base name. */
  lemma ZippedEach(zips: map<string, Archive>, csv: map<string, CsvFile>, listing: seq<string>)
    requires forall k :: 0 <= k < |listing| ==> listing[k] in csv
    requires forall i, j :: 0 <= i < j < |listing| ==> ArchiveName(listing[i]) != ArchiveName(listing[j])
    ensures forall i :: 0 <= i < |listing| ==>
      ArchiveName(listing[i]) in Zipped(zips, csv, listing) &&
      Zipped(zips, csv, listing)[ArchiveName(listing[i])] == Archive(Basename(listing[i]), csv[listing[i]])
  {
    forall i | 0 <= i < |listing|
      ensures ArchiveName(listing[i]) in Zipped(zips, csv, listing)
      ensures Zipped(zips, csv, listing)[ArchiveName(listing[i])] == Archive(Basename(listing[i]), csv[listing[i]])
    {
      ZippedLastWins(zips, csv, listing, i);
    }
  }

  // ---------------------------------------------------------------------
  // Archive names of the partition files.

  lemma {:induction false} BeforeFirstDotAppend(a: string, b: string)
    requires '.' !in a
    ensures BeforeFirstDot(a + b) == a + BeforeFirstDot(b)
  {
    if a == [] {
      assert a + b == b;
    } else {
      assert (a + b)[0] == a[0] && a[0] != '.';
      assert (a + b)[1..] == a[1..] + b;
      assert '.' !in a[1..];
      BeforeFirstDotAppend(a[1..], b);
      calc {
        BeforeFirstDot(a + b);
        [a[0]] + BeforeFirstDot(a[1..] + b);
        [a[0]] + (a[1..] + BeforeFirstDot(b));
        { assert a == [a[0]] + a[1..]; }
        a + BeforeFirstDot(b);
      }
    }
  }

  lemma {:induction false} BasenameAfterSlash(dir: string, name: string)
    requires '/' !in name
    ensures Basename(dir + "/" + name) == name
  {
    if name == [] {
      assert dir + "/" + name == dir + "/";
    } else {
      var init := name[..|name| - 1];
      assert (dir + "/" + name)[..|dir + "/" + name| - 1] == dir + "/" + init;
      BasenameAfterSlash(dir, init);
    }
  }

  lemma CsvPathGlobbed(folder: string, bucket: string)
    requires '/' !in bucket
    ensures IsCsvIn(folder, Advisory.CsvPath(folder, bucket))
  {
  }

  lemma CsvPathArchiveName(folder: string, bucket: string)
    requires '.' !in folder
    ensures ArchiveName(Advisory.CsvPath(folder, bucket)) == folder + "/" + BeforeFirstDot(bucket + ".csv") + ".zip"
    ensures '.' !in bucket ==> ArchiveName(Advisory.CsvPath(folder, bucket)) == folder + "/" + bucket + ".zip"
  {
    var name := bucket + ".csv";
    assert Advisory.CsvPath(folder, bucket) == (folder + "/") + name;
    BeforeFirstDotAppend(folder + "/", name);
    if '.' !in bucket {
      BeforeFirstDotAppend(bucket, ".csv");
      assert BeforeFirstDot(".csv") == [];
    }
  }

  /** A partition file `folder/bucket.csv` (bucket without a slash) is one the
      glob finds; it is archived as `folder/<bucket before its first dot>.zip`,
      so as `folder/bucket.zip` when the bucket has no dot; and the archive
      member is named `bucket.csv`. */
  lemma PartitionArchive(folder: string, bucket: string)
    requires '.' !in folder && '/' !in bucket
    ensures IsCsvIn(folder, Advisory.CsvPath(folder, bucket))
    ensures ArchiveName(Advisory.CsvPath(folder, bucket)) == folder + "/" + BeforeFirstDot(bucket + ".csv") + ".zip"
    ensures '.' !in bucket ==> ArchiveName(Advisory.CsvPath(folder, bucket)) == folder + "/" + bucket + ".zip"
    ensures Basename(Advisory.CsvPath(folder, bucket)) == bucket + ".csv"
  {
    CsvPathGlobbed(folder, bucket);
    CsvPathArchiveName(folder, bucket);
    assert Advisory.CsvPath(folder, bucket) == folder + "/" + (bucket + ".csv");
    BasenameAfterSlash(folder, bucket + ".csv");
  }

  /** The archive of a file inside a dot-free folder lies in that folder. */
  lemma ArchiveNameUnder(folder: string, path: string)
    requires '.' !in folder && Under(folder, path)
    ensures Under(folder, ArchiveName(path))
  {
    var rest := path[|folder| + 1..];
    assert path == (folder + "/") + rest;
    BeforeFirstDotAppend(folder + "/", rest);
  }

  /** No two of the files share an archive name. */
  predicate ArchiveNamesDistinct(files: map<string, CsvFile>) {
    forall p, q :: p in files && q in files && p != q ==> ArchiveName(p) != ArchiveName(q)
  }

  /** Two different buckets without a dot get two different archives. */
  lemma UndottedBucketsDistinct(folder: string, bucket1: string, bucket2: string)
    requires '.' !in folder && '.' !in bucket1 && '.' !in bucket2
    requires bucket1 != bucket2
    ensures ArchiveName(Advisory.CsvPath(folder, bucket1)) != ArchiveName(Advisory.CsvPath(folder, bucket2))
  {
    CsvPathArchiveName(folder, bucket1);
    CsvPathArchiveName(folder, bucket2);
    var n1 := folder + "/" + bucket1 + ".zip";
    var n2 := folder + "/" + bucket2 + ".zip";
    assert n1[|folder| + 1..|n1| - 4] == bucket1;
    assert n2[|folder| + 1..|n2| - 4] == bucket2;
  }

  /** Two buckets that agree up to their first dot share one archive name,
      so the second archive written replaces the first: `v1.0` and `v1.1`
      both go to `csv/v1.zip`. */
  lemma DottedBucketsShareArchive(folder: string, stem: string, ext1: string, ext2: string)
    requires '.' !in folder && '.' !in stem
    ensures ArchiveName(Advisory.CsvPath(folder, stem + "." + ext1))
         == ArchiveName(Advisory.CsvPath(folder, stem + "." + ext2))
         == folder + "/" + stem + ".zip"
  {
    CsvPathArchiveName(folder, stem + "." + ext1);
    CsvPathArchiveName(folder, stem + "." + ext2);
    assert stem + "." + ext1 + ".csv" == stem + ("." + ext1 + ".csv");
    assert stem + "." + ext2 + ".csv" == stem + ("." + ext2 + ".csv");
    BeforeFirstDotAppend(stem, "." + ext1 + ".csv");
    BeforeFirstDotAppend(stem, "." + ext2 + ".csv");
  }
}
