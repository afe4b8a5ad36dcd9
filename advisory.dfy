/** The record transformer of `add_to_csv` (get_advisories.py, lines 75-83):
    it takes one parsed advisory, adds the `withdrawn` and `KEV` keys, and
    works out the severity bucket and the CSV file the row goes to. */
module Advisory {
  import opened Json

  const WithdrawnKey := "withdrawn"
  const KevKey := "KEV"
  const AliasesKey := "aliases"
  const DatabaseSpecificKey := "database_specific"
  const SeverityKey := "severity"
  const UndefinedSeverity := "undefined"

  /** Line 77: `data["withdrawn"]` keeps its value, or becomes None when the
      key is missing. Only a dict supports the assignment. */
  function AddWithdrawn(data: Json): Result<seq<(string, Json)>> {
    match data
    case JObject(fields) =>
      Ok(SetKey(fields, WithdrawnKey, WithdrawnOrNull(fields)))
    case _ => Err(TypeError)
  }

  /** The right-hand side of line 77. */
  function WithdrawnOrNull(fields: seq<(string, Json)>): Json {
    match Lookup(fields, WithdrawnKey)
    case Some(v) => v
    case None => JNull
  }

  /** `j[0]` on a value Python found truthy. */
  function FirstItem(j: Json): Result<Json> {
    match j
    case JArray(items) => if items == [] then Err(IndexError) else Ok(items[0])
    case JString(s) => if s == [] then Err(IndexError) else Ok(JString([s[0]]))
    case JObject(_) => Err(KeyError(JNum(0)))
    case _ => Err(TypeError)
  }

  /** Line 80: `cve` is the first alias when `aliases` is truthy and None
      (here JNull) otherwise; a missing `aliases` key raises. */
  function PrimaryAlias(data: Json): Result<Json> {
    match GetKey(data, AliasesKey)
    case Err(e) => Err(e)
    case Ok(aliases) => if Truthy(aliases) then FirstItem(aliases) else Ok(JNull)
  }

  /** Line 81: the KEV flag, by list membership. */
  function KevFlag(cve: Json, cveList: seq<Json>): (flag: int)
    ensures flag == 1 <==> cve in cveList
    ensures flag == 0 || flag == 1
  {
    if cve in cveList then 1 else 0
  }

  function LowerChar(c: char): char {
    if 'A' <= c <= 'Z' then (c as int + 32) as char else c
  }

  /** `str.lower()`, on ASCII letters. */
  function Lower(s: string): (r: string)
    ensures |r| == |s|
  {
    seq(|s|, i requires 0 <= i < |s| => LowerChar(s[i]))
  }

  /** Lower-casing leaves no upper-case letter, keeps every other character
      where it was, turns each upper-case letter into its lower-case
      partner, and changes nothing the second time. */
  lemma LowerCase(s: string)
    ensures forall i :: 0 <= i < |s| ==> !('A' <= Lower(s)[i] <= 'Z')
    ensures forall i :: 0 <= i < |s| && !('A' <= s[i] <= 'Z') ==> Lower(s)[i] == s[i]
    ensures forall i :: 0 <= i < |s| && 'A' <= s[i] <= 'Z' ==>
      'a' <= Lower(s)[i] <= 'z' && Lower(s)[i] as int - s[i] as int == 'a' as int - 'A' as int
    ensures Lower(Lower(s)) == Lower(s)
  {
  }

  /** Line 82: `(data["database_specific"]["severity"] or "undefined").lower()`. */
  function Bucket(data: Json): Result<string> {
    match GetKey(data, DatabaseSpecificKey)
    case Err(e) => Err(e)
    case Ok(ds) =>
      match GetKey(ds, SeverityKey)
      case Err(e) => Err(e)
      case Ok(severity) =>
        var chosen := if Truthy(severity) then severity else JString(UndefinedSeverity);
        match chosen
        case JString(s) => Ok(Lower(s))
        case _ => Err(AttributeError)
  }

  /** Line 83. */
  function CsvPath(csvFolder: string, bucket: string): string {
    csvFolder + "/" + bucket + ".csv"
  }

  datatype Transformed = Transformed(record: Json, bucket: string, csvFile: string)

  /** Lines 77-83 in order: each step sees the dict as the steps before it
      left it, and the first one that raises ends the transformation. */
  function Transform(data: Json, cveList: seq<Json>, csvFolder: string): Result<Transformed> {
    match AddWithdrawn(data)
    case Err(e) => Err(e)
    case Ok(f1) =>
      match PrimaryAlias(JObject(f1))
      case Err(e) => Err(e)
      case Ok(cve) =>
        var record := JObject(SetKey(f1, KevKey, JNum(KevFlag(cve, cveList))));
        match Bucket(record)
        case Err(e) => Err(e)
        case Ok(bucket) => Ok(Transformed(record, bucket, CsvPath(csvFolder, bucket)))
  }

  // ---------------------------------------------------------------------
  // What the transformation promises, stated on the ORIGINAL advisory.

  /** The key the transformation reads is untouched by the keys it writes. */
  lemma GetKeyPastSets(fields: seq<(string, Json)>, k1: string, v1: Json, k2: string, v2: Json, k: string)
    requires k != k1 && k != k2
    ensures GetKey(JObject(SetKey(SetKey(fields, k1, v1), k2, v2)), k) == GetKey(JObject(fields), k)
    ensures GetKey(JObject(SetKey(fields, k1, v1)), k) == GetKey(JObject(fields), k)
  {
    SetKeyLookup(fields, k1, v1, k);
    SetKeyLookup(SetKey(fields, k1, v1), k2, v2, k);
    LookupFound(fields, k);
    LookupFound(SetKey(fields, k1, v1), k);
    LookupFound(SetKey(SetKey(fields, k1, v1), k2, v2), k);
  }

  /** Before the bucket: a value that is not an object, a missing `aliases`
      and a truthy `aliases` without a first item each raise. */
  lemma TransformAliasOutcome(data: Json, cveList: seq<Json>, csvFolder: string)
    ensures !data.JObject? ==> Transform(data, cveList, csvFolder) == Err(TypeError)
    ensures data.JObject? ==> PrimaryAlias(JObject(AddWithdrawn(data).value)) == PrimaryAlias(data)
  {
    if data.JObject? {
      var f := data.fields;
      GetKeyPastSets(f, WithdrawnKey, WithdrawnOrNull(f), KevKey, JNum(0), AliasesKey);
    }
  }

  /** The bucket is read from the record after the two keys are set, and
      `database_specific` is neither of them. */
  lemma TransformBucketOutcome(data: Json, cveList: seq<Json>, csvFolder: string)
    requires data.JObject? && PrimaryAlias(JObject(AddWithdrawn(data).value)).Ok?
    ensures var f1 := AddWithdrawn(data).value;
      var cve := PrimaryAlias(JObject(f1)).value;
      Bucket(JObject(SetKey(f1, KevKey, JNum(KevFlag(cve, cveList))))) == Bucket(data)
  {
    var f := data.fields;
    var f1 := AddWithdrawn(data).value;
    var cve := PrimaryAlias(JObject(f1)).value;
    GetKeyPastSets(f, WithdrawnKey, WithdrawnOrNull(f), KevKey, JNum(KevFlag(cve, cveList)), DatabaseSpecificKey);
  }

  /** The transformation succeeds exactly when the advisory is an object
      whose `aliases` exists (and, if truthy, has a first item), whose
      `database_specific` is an object with a `severity` key, and whose
      severity is falsy or a string. Each failure is the exception raised by
      the first failing line. */
  lemma TransformOutcome(data: Json, cveList: seq<Json>, csvFolder: string)
    ensures !data.JObject? ==> Transform(data, cveList, csvFolder) == Err(TypeError)
    ensures data.JObject? && GetKey(data, AliasesKey).Err? ==>
      Transform(data, cveList, csvFolder) == Err(KeyError(JString(AliasesKey)))
    ensures (data.JObject? && GetKey(data, AliasesKey).Ok? && Truthy(GetKey(data, AliasesKey).value)
        && FirstItem(GetKey(data, AliasesKey).value).Err?) ==>
      Transform(data, cveList, csvFolder) == Err(FirstItem(GetKey(data, AliasesKey).value).error)
    ensures data.JObject? && PrimaryAlias(data).Ok? ==>
      match Bucket(data)
      case Err(e) => Transform(data, cveList, csvFolder) == Err(e)
      case Ok(b) => Transform(data, cveList, csvFolder).Ok? && Transform(data, cveList, csvFolder).value.bucket == b
  {
    TransformAliasOutcome(data, cveList, csvFolder);
    if data.JObject? && PrimaryAlias(data).Ok? {
      TransformBucketOutcome(data, cveList, csvFolder);
    }
  }

  /** A missing `aliases`, `database_specific` or `severity` key always fails. */
  lemma MissingKeysFail(data: Json, cveList: seq<Json>, csvFolder: string)
    requires data.JObject?
    requires AliasesKey !in Keys(data.fields)
      || DatabaseSpecificKey !in Keys(data.fields)
      || (GetKey(data, DatabaseSpecificKey).Ok? && GetKey(GetKey(data, DatabaseSpecificKey).value, SeverityKey).Err?)
    ensures Transform(data, cveList, csvFolder).Err?
  {
    TransformOutcome(data, cveList, csvFolder);
  }

  /** After the transformation `withdrawn` is always there, holding the
      original value or null; `KEV` holds 0 or 1; every other key holds its
      original value; the original keys keep their order and at most the two
      new keys are appended. */
  lemma TransformKeys(data: Json, cveList: seq<Json>, csvFolder: string)
    requires Transform(data, cveList, csvFolder).Ok?
    ensures data.JObject?
    ensures var rec := Transform(data, cveList, csvFolder).value.record;
      && rec.JObject?
      && Lookup(rec.fields, WithdrawnKey) ==
         (if WithdrawnKey in Keys(data.fields) then Lookup(data.fields, WithdrawnKey) else Some(JNull))
      && (Lookup(rec.fields, KevKey) == Some(JNum(0)) || Lookup(rec.fields, KevKey) == Some(JNum(1)))
      && (forall k :: k != WithdrawnKey && k != KevKey ==> Lookup(rec.fields, k) == Lookup(data.fields, k))
      && Keys(rec.fields) == Keys(data.fields)
           + (if WithdrawnKey in Keys(data.fields) then [] else [WithdrawnKey])
           + (if KevKey in Keys(data.fields) then [] else [KevKey])
  {
    var f := data.fields;
    var prior := WithdrawnOrNull(f);
    var f1 := SetKey(f, WithdrawnKey, prior);
    var cve := PrimaryAlias(JObject(f1)).value;
    var kev := JNum(KevFlag(cve, cveList));
    var f2 := SetKey(f1, KevKey, kev);
    assert Transform(data, cveList, csvFolder).value.record == JObject(f2);
    LookupFound(f, WithdrawnKey);
    SetKeyLookup(f1, KevKey, kev, WithdrawnKey);
    SetKeyLookup(f, WithdrawnKey, prior, WithdrawnKey);
    SetKeyLookup(f1, KevKey, kev, KevKey);
    forall k | k != WithdrawnKey && k != KevKey
      ensures Lookup(f2, k) == Lookup(f, k)
    {
      SetKeyLookup(f1, KevKey, kev, k);
      SetKeyLookup(f, WithdrawnKey, prior, k);
    }
    SetKeyKeys(f, WithdrawnKey, prior);
    SetKeyKeys(f1, KevKey, kev);
  }

  /** KEV is 1 exactly when the first alias is in the exploited-ID list. For a
      record whose `aliases` is falsy (an empty list, say), `cve` is None, so
      it is flagged exactly when the list itself holds a null ID. */
  lemma KevIffFirstAliasListed(data: Json, cveList: seq<Json>, csvFolder: string)
    requires Transform(data, cveList, csvFolder).Ok?
    ensures data.JObject? && GetKey(data, AliasesKey).Ok?
    ensures var aliases := GetKey(data, AliasesKey).value;
      var rec := Transform(data, cveList, csvFolder).value.record;
      rec.JObject? &&
      (Lookup(rec.fields, KevKey) == Some(JNum(1)) <==>
        if Truthy(aliases) then FirstItem(aliases).Ok? && FirstItem(aliases).value in cveList
        else JNull in cveList)
    ensures var aliases := GetKey(data, AliasesKey).value;
      var rec := Transform(data, cveList, csvFolder).value.record;
      aliases.JArray? ==>
      (Lookup(rec.fields, KevKey) == Some(JNum(1)) <==>
        if aliases.items != [] then aliases.items[0] in cveList else JNull in cveList)
  {
    TransformOutcome(data, cveList, csvFolder);
    var f := data.fields;
    var prior := WithdrawnOrNull(f);
    var f1 := SetKey(f, WithdrawnKey, prior);
    GetKeyPastSets(f, WithdrawnKey, prior, KevKey, JNum(0), AliasesKey);
    var cve := PrimaryAlias(JObject(f1)).value;
    var kev := JNum(KevFlag(cve, cveList));
    SetKeyLookup(f1, KevKey, kev, KevKey);
  }

  /** With no null ID in the list, an advisory with an empty `aliases` list
      is never flagged. */
  lemma NoAliasesNotFlagged(data: Json, cveList: seq<Json>, csvFolder: string)
    requires Transform(data, cveList, csvFolder).Ok?
    requires JNull !in cveList
    requires GetKey(data, AliasesKey) == Ok(JArray([]))
    ensures var rec := Transform(data, cveList, csvFolder).value.record;
      rec.JObject? && Lookup(rec.fields, KevKey) == Some(JNum(0))
  {
    KevIffFirstAliasListed(data, cveList, csvFolder);
    TransformKeys(data, cveList, csvFolder);
  }

  /** The bucket is the lower-cased severity when it is a non-empty string,
      and "undefined" when it is null, empty or otherwise falsy; the target
      file is exactly `csvFolder + "/" + bucket + ".csv"`; the bucket is never
      empty and holds no upper-case ASCII letter. */
  lemma BucketAndFile(data: Json, cveList: seq<Json>, csvFolder: string)
    requires Transform(data, cveList, csvFolder).Ok?
    ensures GetKey(data, DatabaseSpecificKey).Ok?
    ensures GetKey(GetKey(data, DatabaseSpecificKey).value, SeverityKey).Ok?
    ensures var severity := GetKey(GetKey(data, DatabaseSpecificKey).value, SeverityKey).value;
      var t := Transform(data, cveList, csvFolder).value;
      && (Truthy(severity) ==> severity.JString? && t.bucket == Lower(severity.s))
      && (!Truthy(severity) ==> t.bucket == UndefinedSeverity)
      && t.csvFile == csvFolder + "/" + t.bucket + ".csv"
      && t.bucket != []
      && forall i :: 0 <= i < |t.bucket| ==> !('A' <= t.bucket[i] <= 'Z')
  {
    TransformOutcome(data, cveList, csvFolder);
    var severity := GetKey(GetKey(data, DatabaseSpecificKey).value, SeverityKey).value;
    if !Truthy(severity) {
      assert Lower(UndefinedSeverity) == UndefinedSeverity;
    }
  }
}
