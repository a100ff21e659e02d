/** The statement extractor of internal/core/extract.go: every input file
    contributes the entries of its "Statement" array, in document order,
    each sized by its minified serialisation; a file that cannot be read or
    decoded contributes nothing. */
module Extract {
  import opened Types

  /** What os.ReadFile followed by json.Unmarshal leaves in the policy's
      Statement field: nothing for an unreadable file or invalid JSON, the
      decoded array otherwise (empty when the field is missing). */
  function DocumentEntries(json: Json, disk: Disk, filename: string): seq<Content>
  {
    match ReadFile(disk, filename)
    case None => []
    case Some(data) =>
      match json.unmarshal(data)
      case None => []
      case Some(entries) => entries
  }

  /** One statement per entry, in order, sized by json.Marshal of that entry. */
  function Measure(json: Json, entries: seq<Content>): (r: seq<Statement>)
    ensures |r| == |entries|
    ensures forall i :: 0 <= i < |r| ==> r[i].payload == entries[i] && r[i].size == |json.marshal(entries[i])|
  {
    if entries == [] then []
    else Measure(json, entries[..|entries| - 1]) + [Entry(entries[|entries| - 1], |json.marshal(entries[|entries| - 1])|)]
  }

  /** The statements of one file. */
  function FileStatements(json: Json, disk: Disk, filename: string): seq<Statement>
  {
    Measure(json, DocumentEntries(json, disk, filename))
  }

  /** The statements of all files, file after file. */
  function AllStatements(json: Json, disk: Disk, files: seq<string>): seq<Statement>
  {
    if files == [] then []
    else AllStatements(json, disk, files[..|files| - 1]) + FileStatements(json, disk, files[|files| - 1])
  }

  /** The number of entries over all files. */
  function TotalEntries(json: Json, disk: Disk, files: seq<string>): nat
  {
    if files == [] then 0
    else TotalEntries(json, disk, files[..|files| - 1]) + |DocumentEntries(json, disk, files[|files| - 1])|
  }

  /** extractIndividualPolicies (extract.go:17-34). */
  method ExtractIndividualPolicies(json: Json, disk: Disk, filename: string) returns (statements: seq<Statement>)
    ensures statements == FileStatements(json, disk, filename)
  {
    var entries: seq<Content> := [];
    var data := ReadFile(disk, filename);
    if data.Some? {
      var policy := json.unmarshal(data.value);
      if policy.Some? {
        entries := policy.value;
      }
    }
    statements := [];
    for i := 0 to |entries|
      invariant statements == Measure(json, entries[..i])
    {
      assert entries[..i + 1][..i] == entries[..i];
      var stmtJSON := json.marshal(entries[i]);
      statements := statements + [Entry(entries[i], |stmtJSON|)];
    }
    assert entries[..|entries|] == entries;
  }

  /** extractAllStatements (extract.go:8-15). */
  method ExtractAllStatements(json: Json, disk: Disk, files: seq<string>) returns (allStatements: seq<Statement>)
    ensures allStatements == AllStatements(json, disk, files)
  {
    allStatements := [];
    for i := 0 to |files|
      invariant allStatements == AllStatements(json, disk, files[..i])
    {
      assert files[..i + 1][..i] == files[..i];
      var statements := ExtractIndividualPolicies(json, disk, files[i]);
      allStatements := allStatements + statements;
    }
    assert files[..|files|] == files;
  }

  /** A file that cannot be read, or whose bytes are not valid JSON,
      contributes no statement, and no error is raised. */
  lemma UnreadableOrInvalidContributesNothing(json: Json, disk: Disk, filename: string)
    requires filename !in disk || json.unmarshal(disk[filename]).None?
    ensures FileStatements(json, disk, filename) == []
  {
  }

  /** A decoded document gives exactly one statement per entry of its
      Statement array, in document order, with that entry as content and the
      length of its minified serialisation as size. */
  lemma OneStatementPerEntry(json: Json, disk: Disk, filename: string, entries: seq<Content>)
    requires filename in disk && json.unmarshal(disk[filename]) == Some(entries)
    ensures |FileStatements(json, disk, filename)| == |entries|
    ensures forall i :: 0 <= i < |entries| ==>
      FileStatements(json, disk, filename)[i] == Entry(entries[i], |json.marshal(entries[i])|)
  {
  }

  /** The concatenation has as many statements as all files have entries. */
  lemma {:induction false} AllStatementsLength(json: Json, disk: Disk, files: seq<string>)
    ensures |AllStatements(json, disk, files)| == TotalEntries(json, disk, files)
  {
    if files != [] {
      AllStatementsLength(json, disk, files[..|files| - 1]);
    }
  }

  /** The statements of the first k files open the concatenation. */
  lemma {:induction false} AllStatementsPrefix(json: Json, disk: Disk, files: seq<string>, k: nat)
    requires k <= |files|
    ensures AllStatements(json, disk, files[..k]) <= AllStatements(json, disk, files)
    decreases |files| - k
  {
    if k < |files| {
      AllStatementsPrefix(json, disk, files, k + 1);
      assert files[..k + 1][..k] == files[..k];
    } else {
      assert files[..k] == files;
    }
  }

  /** Statements of a file sit, in order, right after those of the files
      before it. */
  lemma AllStatementsOrder(json: Json, disk: Disk, files: seq<string>, f: nat)
    requires f < |files|
    ensures AllStatements(json, disk, files[..f]) + FileStatements(json, disk, files[f])
         <= AllStatements(json, disk, files)
  {
    AllStatementsPrefix(json, disk, files, f + 1);
    var upTo := files[..f + 1];
    assert upTo[..|upTo| - 1] == files[..f] && upTo[|upTo| - 1] == files[f];
    assert AllStatements(json, disk, upTo) ==
      AllStatements(json, disk, files[..f]) + FileStatements(json, disk, files[f]);
  }

  /** Every measured entry has positive size when no encoding is empty. */
  lemma MeasurePositive(json: Json, entries: seq<Content>)
    requires forall c :: |json.marshal(c)| > 0
    ensures forall s :: s in Measure(json, entries) ==> s.size > 0
  {
    var r := Measure(json, entries);
    forall i | 0 <= i < |r|
      ensures r[i].size > 0
    {
      assert r[i].size == |json.marshal(entries[i])|;
    }
  }

  /** Every measured entry is sized by its own encoding. */
  lemma MeasureEncoded(json: Json, entries: seq<Content>)
    ensures forall s :: s in Measure(json, entries) ==> s.size == |json.marshal(s.payload)|
  {
    var r := Measure(json, entries);
    forall i | 0 <= i < |r|
      ensures r[i].size == |json.marshal(r[i].payload)|
    {
      assert r[i].payload == entries[i];
    }
  }

  /** Every extracted statement's size is the length of the minified
      encoding of its own content. */
  lemma {:induction false} SizesAreEncodedLengths(json: Json, disk: Disk, files: seq<string>)
    ensures forall s :: s in AllStatements(json, disk, files) ==> s.size == |json.marshal(s.payload)|
  {
    if files != [] {
      SizesAreEncodedLengths(json, disk, files[..|files| - 1]);
      var front := AllStatements(json, disk, files[..|files| - 1]);
      var last := FileStatements(json, disk, files[|files| - 1]);
      MeasureEncoded(json, DocumentEntries(json, disk, files[|files| - 1]));
      assert forall s :: s in front + last ==> s in front || s in last;
    }
  }

  /** Since json.Marshal of a statement object is never empty ("{}" at
      least), every extracted statement has positive size. */
  lemma {:induction false} SizesArePositive(json: Json, disk: Disk, files: seq<string>)
    requires forall c :: |json.marshal(c)| > 0
    ensures forall s :: s in AllStatements(json, disk, files) ==> s.size > 0
  {
    if files != [] {
      SizesArePositive(json, disk, files[..|files| - 1]);
      var front := AllStatements(json, disk, files[..|files| - 1]);
      var last := FileStatements(json, disk, files[|files| - 1]);
      MeasurePositive(json, DocumentEntries(json, disk, files[|files| - 1]));
      assert forall s :: s in front + last ==> s in front || s in last;
    }
  }
}
