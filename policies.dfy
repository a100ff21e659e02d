/** The legacy Processor of internal/core/policies.go: the same extraction,
    First-Fit-Decreasing packing and document assembly as internal/core, with
    statements that remember their file, the "_corset" naming scheme and a
    packer that returns nil for an empty result. */
module Legacy {
  import opened Types
  import opened Config
  import opened Paths
  import opened PackSpec
  import opened Extract
  import Pack
  import opened Outputs

  /** A PolicyStatement's payload: its content and the file it came from. */
  datatype Origin = Origin(content: Content, originalFilename: string)

  /** PolicyStatement: content, size and original filename. */
  type PolicyStatement = Entry<Origin>

  /** The statements without their filenames. */
  function Strip(ps: seq<PolicyStatement>): (r: seq<Statement>)
    ensures |r| == |ps|
    ensures forall i :: 0 <= i < |r| ==> r[i] == Entry(ps[i].payload.content, ps[i].size)
  {
    if ps == [] then []
    else Strip(ps[..|ps| - 1]) + [Entry(ps[|ps| - 1].payload.content, ps[|ps| - 1].size)]
  }

  /** One statement per entry, sized by its minified serialisation and
      tagged with the file it came from. */
  function Tag(json: Json, entries: seq<Content>, filename: string): (r: seq<PolicyStatement>)
    ensures |r| == |entries|
    ensures forall i :: 0 <= i < |r| ==>
      r[i] == Entry(Origin(entries[i], filename), |json.marshal(entries[i])|)
  {
    if entries == [] then []
    else Tag(json, entries[..|entries| - 1], filename) +
         [Entry(Origin(entries[|entries| - 1], filename), |json.marshal(entries[|entries| - 1])|)]
  }

  /** The statements of all files, file after file. */
  function LegacyStatements(json: Json, disk: Disk, files: seq<string>): seq<PolicyStatement>
  {
    if files == [] then []
    else LegacyStatements(json, disk, files[..|files| - 1]) +
         Tag(json, DocumentEntries(json, disk, files[|files| - 1]), files[|files| - 1])
  }

  /** The legacy packing: First-Fit-Decreasing, with an empty result
      reported as nil, the same value as failure. */
  function LegacyPacking<P(==)>(sorted: seq<Entry<P>>, maxFiles: nat, base: int): Option<Groups<P>>
  {
    match FirstFitDecreasing(sorted, maxFiles, base)
    case None => None
    case Some(gs) => if gs == [] then None else Some(gs)
  }

  /** How the legacy output files are named. */
  datatype Naming = SingleInput(originalFile: string, count: nat) | MultipleInputs(outputDir: string)

  /** The name of output file n (generateSingleFile, policies.go:170-190, and
      generateMultipleFiles, policies.go:157-158). */
  function LegacyFilename(paths: PathLib, naming: Naming, n: int): string
  {
    match naming
    case SingleInput(originalFile, count) =>
      var base := TrimSuffix(originalFile, ".json");
      if count == 1 then base + CorsetSuffix + ".json"
      else base + CorsetSuffix + Decimal(n) + ".json"
    case MultipleInputs(outputDir) =>
      paths.join(outputDir, "corset" + Decimal(n) + ".json")
  }

  /** The disk after the first k groups have been written, group i under
      output file i+1. */
  function LegacyWritten(json: Json, whitespace: bool, paths: PathLib, naming: Naming,
                         packedFiles: seq<seq<PolicyStatement>>, disk: Disk, k: nat): Disk
    requires k <= |packedFiles|
  {
    if k == 0 then disk
    else WriteFile(LegacyWritten(json, whitespace, paths, naming, packedFiles, disk, k - 1),
                   LegacyFilename(paths, naming, k),
                   Document(json, whitespace, Strip(packedFiles[k - 1])))
  }

  /** The disk after generateSingleFile. */
  function SingleFileDisk(json: Json, userInput: UserInput, paths: PathLib,
                          packedFiles: seq<seq<PolicyStatement>>, originalFile: string, disk: Disk): Disk
  {
    var written := LegacyWritten(json, userInput.whitespace, paths, SingleInput(originalFile, |packedFiles|),
                                 packedFiles, disk, |packedFiles|);
    if userInput.delete then RemoveFile(written, originalFile) else written
  }

  /** The disk after ProcessFiles once statements were found. */
  function LegacyOutputDisk(json: Json, userInput: UserInput, paths: PathLib,
                            packedFiles: seq<seq<PolicyStatement>>, files: seq<string>, disk: Disk): Disk
    requires |files| > 0
  {
    if |files| > 1 then
      LegacyWritten(json, userInput.whitespace, paths, MultipleInputs(paths.dir(files[0])),
                    packedFiles, disk, |packedFiles|)
    else
      SingleFileDisk(json, userInput, paths, packedFiles, files[0], disk)
  }

  /** The answer at the delete confirmation prompt refuses the operation:
      anything but "y" or "Y" (policies.go:36-40). */
  predicate Cancelled(userInput: UserInput, response: string)
  {
    userInput.delete && response != "y" && response != "Y"
  }

  // Properties of the legacy packer.

  /** For empty input the legacy packer returns nil, the value it also uses
      for failure, where internal/core returns an empty non-nil result. */
  lemma LegacyEmptyIsFailure<P>(maxFiles: nat, base: int)
    ensures LegacyPacking<P>([], maxFiles, base).None?
    ensures FirstFitDecreasing<P>([], maxFiles, base) == Some([])
  {
    EmptyInput<P>(maxFiles, base);
  }

  /** On non-empty input both packers give the same answer. */
  lemma LegacyAgreesOnNonEmpty<P>(sorted: seq<Entry<P>>, maxFiles: nat, base: int)
    requires sorted != []
    ensures LegacyPacking(sorted, maxFiles, base) == FirstFitDecreasing(sorted, maxFiles, base)
  {
    var r := FirstFitDecreasing(sorted, maxFiles, base);
    if r.Some? {
      Completeness(sorted, maxFiles, base);
      assert sorted[0] in multiset(sorted);
    }
  }

  /** The legacy packer fails exactly on empty input or when some statement,
      in sorted order, fits in none of the MaxFiles groups. */
  lemma LegacyFailure<P>(sorted: seq<Entry<P>>, maxFiles: nat, base: int)
    ensures LegacyPacking(sorted, maxFiles, base).None? <==>
      sorted == [] || FirstFitDecreasing(sorted, maxFiles, base).None?
  {
    if sorted == [] {
      LegacyEmptyIsFailure<P>(maxFiles, base);
    } else {
      LegacyAgreesOnNonEmpty(sorted, maxFiles, base);
    }
  }

  /** On success every statement lands in exactly one of at most MaxFiles
      non-empty groups, each with its counter within the size limit. */
  lemma LegacyPackingSound<P>(sorted: seq<Entry<P>>, maxFiles: nat, base: int)
    requires LegacyPacking(sorted, maxFiles, base).Some?
    ensures var gs := LegacyPacking(sorted, maxFiles, base).value;
      multiset(Flatten(gs)) == multiset(sorted) &&
      0 < |gs| <= maxFiles &&
      (forall g :: g in gs ==> g != [] && base + SizeSum(g) + |g| - 1 <= MaxPolicySize)
  {
    LegacyFailure(sorted, maxFiles, base);
    LegacyAgreesOnNonEmpty(sorted, maxFiles, base);
    Completeness(sorted, maxFiles, base);
    GroupBound(sorted, maxFiles, base);
    Capacity(sorted, maxFiles, base);
  }

  // Properties of the legacy extraction.

  /** Without their filenames, a file's legacy statements are exactly the
      statements internal/core extracts from it. */
  lemma {:induction false} StripTag(json: Json, entries: seq<Content>, filename: string)
    ensures Strip(Tag(json, entries, filename)) == Measure(json, entries)
  {
    var r := Strip(Tag(json, entries, filename));
    assert |r| == |Measure(json, entries)|;
    forall i | 0 <= i < |r| ensures r[i] == Measure(json, entries)[i] {
    }
  }

  /** Strip distributes over concatenation. */
  lemma StripAppend(a: seq<PolicyStatement>, b: seq<PolicyStatement>)
    ensures Strip(a + b) == Strip(a) + Strip(b)
  {
    var l, r := Strip(a + b), Strip(a) + Strip(b);
    forall i | 0 <= i < |l| ensures l[i] == r[i] {
      if i < |a| {
        assert (a + b)[i] == a[i];
      } else {
        assert (a + b)[i] == b[i - |a|];
      }
    }
  }

  /** Both extractors find the same statements in the same order. */
  lemma {:induction false} LegacyExtractionAgrees(json: Json, disk: Disk, files: seq<string>)
    ensures Strip(LegacyStatements(json, disk, files)) == AllStatements(json, disk, files)
  {
    if files != [] {
      var front := files[..|files| - 1];
      var last := files[|files| - 1];
      LegacyExtractionAgrees(json, disk, front);
      StripAppend(LegacyStatements(json, disk, front), Tag(json, DocumentEntries(json, disk, last), last));
      StripTag(json, DocumentEntries(json, disk, last), last);
    }
  }

  /** Every statement is tagged with a file it was read from. */
  lemma {:induction false} LegacyOrigins(json: Json, disk: Disk, files: seq<string>)
    ensures forall s :: s in LegacyStatements(json, disk, files) ==> s.payload.originalFilename in files
  {
    if files != [] {
      var front := files[..|files| - 1];
      var last := files[|files| - 1];
      LegacyOrigins(json, disk, front);
      var t := Tag(json, DocumentEntries(json, disk, last), last);
      assert forall i :: 0 <= i < |t| ==> t[i].payload.originalFilename == last;
      assert forall s :: s in LegacyStatements(json, disk, front) + t ==>
        s in LegacyStatements(json, disk, front) || s in t;
      assert forall f :: f in front ==> f in files;
    }
  }

  // Properties of the legacy naming.

  /** A single input's outputs never take the input's own name. */
  lemma SingleInputAvoidsOriginal(paths: PathLib, originalFile: string, count: nat, n: int)
    ensures LegacyFilename(paths, SingleInput(originalFile, count), n) != originalFile
  {
    var base := TrimSuffix(originalFile, ".json");
    var name := LegacyFilename(paths, SingleInput(originalFile, count), n);
    if EndsWith(originalFile, ".json") {
      assert base + ".json" == originalFile;
    }
    assert |name| > |originalFile|;
  }

  /** A single input split over several files gets a different name for
      each file number, all with extension ".json". */
  lemma SingleInputNamesDistinct(paths: PathLib, originalFile: string, count: nat, m: int, n: int)
    requires count != 1 && m != n
    ensures LegacyFilename(paths, SingleInput(originalFile, count), m) !=
            LegacyFilename(paths, SingleInput(originalFile, count), n)
    ensures Ext(LegacyFilename(paths, SingleInput(originalFile, count), m)) == ".json"
  {
    var base := TrimSuffix(originalFile, ".json");
    DecimalInjective(m, n);
    InfixDistinct(base + CorsetSuffix, Decimal(m), Decimal(n), ".json");
    ExtOfAppended(base + CorsetSuffix + Decimal(m), ".json");
  }

  /** With several inputs the legacy names are those of internal/core's
      fallback scheme. */
  lemma MultipleMatchesFallback(paths: PathLib, userInput: UserInput, outputDir: string,
                                inputFiles: seq<string>, n: int)
    requires !userInput.isDirectory && |inputFiles| > 1
    ensures LegacyFilename(paths, MultipleInputs(outputDir), n) ==
            GenerateOutputFilename(paths, userInput, outputDir, n, inputFiles)
  {
  }

  // Properties of the legacy disk effects.

  /** Writing never removes a file, and files that are not output names
      stay as they were. */
  lemma {:induction false} LegacyWrittenFrame(json: Json, whitespace: bool, paths: PathLib, naming: Naming,
                                              packedFiles: seq<seq<PolicyStatement>>, disk: Disk, k: nat)
    requires k <= |packedFiles|
    ensures forall p :: p in disk ==> p in LegacyWritten(json, whitespace, paths, naming, packedFiles, disk, k)
    ensures forall p :: (forall n :: 1 <= n <= k ==> p != LegacyFilename(paths, naming, n)) ==>
      var w := LegacyWritten(json, whitespace, paths, naming, packedFiles, disk, k);
      (p in w <==> p in disk) && (p in w ==> w[p] == disk[p])
  {
    if k > 0 {
      LegacyWrittenFrame(json, whitespace, paths, naming, packedFiles, disk, k - 1);
    }
  }

  /** True when output file n holds the document of group n-1. */
  predicate LegacyHolds(json: Json, whitespace: bool, paths: PathLib, naming: Naming,
                        packedFiles: seq<seq<PolicyStatement>>, w: Disk, n: nat)
    requires 1 <= n <= |packedFiles|
  {
    var name := LegacyFilename(paths, naming, n);
    name in w && w[name] == Document(json, whitespace, Strip(packedFiles[n - 1]))
  }

  /** With pairwise different names, output file n holds group n-1. */
  lemma {:induction false} LegacyWrittenHolds(json: Json, whitespace: bool, paths: PathLib, naming: Naming,
                                              packedFiles: seq<seq<PolicyStatement>>, disk: Disk, k: nat)
    requires k <= |packedFiles|
    requires forall m, n :: 1 <= m < n <= k ==> LegacyFilename(paths, naming, m) != LegacyFilename(paths, naming, n)
    ensures forall n :: 1 <= n <= k ==>
      LegacyHolds(json, whitespace, paths, naming, packedFiles,
                  LegacyWritten(json, whitespace, paths, naming, packedFiles, disk, k), n)
  {
    if k > 0 {
      LegacyWrittenHolds(json, whitespace, paths, naming, packedFiles, disk, k - 1);
      var before := LegacyWritten(json, whitespace, paths, naming, packedFiles, disk, k - 1);
      var w := LegacyWritten(json, whitespace, paths, naming, packedFiles, disk, k);
      forall n | 1 <= n <= k
        ensures LegacyHolds(json, whitespace, paths, naming, packedFiles, w, n)
      {
        if n < k {
          var name := LegacyFilename(paths, naming, n);
          assert LegacyHolds(json, whitespace, paths, naming, packedFiles, before, n);
          assert name != LegacyFilename(paths, naming, k);
          assert w == before[LegacyFilename(paths, naming, k) := Document(json, whitespace, Strip(packedFiles[k - 1]))];
          assert w[name] == before[name];
        }
      }
    }
  }

  /** For a single input, output file n holds group n-1, the original is
      never overwritten, and it is removed exactly when the delete option
      is set. */
  lemma SingleInputOutcome(json: Json, userInput: UserInput, paths: PathLib,
                           packedFiles: seq<seq<PolicyStatement>>, originalFile: string, disk: Disk)
    ensures var out := SingleFileDisk(json, userInput, paths, packedFiles, originalFile, disk);
      (forall n :: 1 <= n <= |packedFiles| ==>
         LegacyHolds(json, userInput.whitespace, paths, SingleInput(originalFile, |packedFiles|), packedFiles, out, n)) &&
      (userInput.delete ==> originalFile !in out) &&
      (!userInput.delete ==> (originalFile in out <==> originalFile in disk) &&
                             (originalFile in out ==> out[originalFile] == disk[originalFile]))
  {
    var naming := SingleInput(originalFile, |packedFiles|);
    var w := LegacyWritten(json, userInput.whitespace, paths, naming, packedFiles, disk, |packedFiles|);
    forall m, n | 1 <= m < n <= |packedFiles|
      ensures LegacyFilename(paths, naming, m) != LegacyFilename(paths, naming, n)
    {
      SingleInputNamesDistinct(paths, originalFile, |packedFiles|, m, n);
    }
    LegacyWrittenHolds(json, userInput.whitespace, paths, naming, packedFiles, disk, |packedFiles|);
    forall n | 1 <= n <= |packedFiles| ensures LegacyFilename(paths, naming, n) != originalFile {
      SingleInputAvoidsOriginal(paths, originalFile, |packedFiles|, n);
    }
    LegacyWrittenFrame(json, userInput.whitespace, paths, naming, packedFiles, disk, |packedFiles|);
    var out := SingleFileDisk(json, userInput, paths, packedFiles, originalFile, disk);
    forall n | 1 <= n <= |packedFiles|
      ensures LegacyHolds(json, userInput.whitespace, paths, naming, packedFiles, out, n)
    {
      assert LegacyHolds(json, userInput.whitespace, paths, naming, packedFiles, w, n);
    }
  }

  class Processor {
    const userInput: UserInput

    /** NewProcessor (policies.go:30-32). */
    constructor(userInput: UserInput)
      ensures this.userInput == userInput
    {
      this.userInput := userInput;
    }

    /** calculateBaseSize (policies.go:96-101): the empty document without
        its "[]". */
    function CalculateBaseSize(): (size: int)
      ensures size == Overhead(userInput.whitespace)
    {
      if userInput.whitespace then |SCPBaseWithWS| - 2 else |SCPBaseStructure| - 2
    }

    /** extractIndividualPolicies (policies.go:75-93). */
    method ExtractIndividualPolicies(json: Json, disk: Disk, filename: string)
      returns (statements: seq<PolicyStatement>)
      ensures statements == Tag(json, DocumentEntries(json, disk, filename), filename)
    {
      var entries: seq<Content> := [];
      var data := ReadFile(disk, filename);
      if data.Some? {
        var policy := json.unmarshal(data.value);
        if policy.Some? {
          entries := policy.value;
        }
      }
      statements := [];
      for i := 0 to |entries|
        invariant statements == Tag(json, entries[..i], filename)
      {
        assert entries[..i + 1][..i] == entries[..i];
        var stmtJSON := json.marshal(entries[i]);
        statements := statements + [Entry(Origin(entries[i], filename), |stmtJSON|)];
      }
      assert entries[..|entries|] == entries;
    }

    /** The statement-collecting loop of ProcessFiles (policies.go:45-51). */
    method CollectStatements(json: Json, disk: Disk, files: seq<string>)
      returns (allStatements: seq<PolicyStatement>)
      ensures allStatements == LegacyStatements(json, disk, files)
    {
      allStatements := [];
      for i := 0 to |files|
        invariant allStatements == LegacyStatements(json, disk, files[..i])
      {
        assert files[..i + 1][..i] == files[..i];
        var statements := ExtractIndividualPolicies(json, disk, files[i]);
        allStatements := allStatements + statements;
      }
      assert files[..|files|] == files;
    }

    /** packPolicies (policies.go:104-152): the same sort and placement as
        internal/core, but the surviving groups are collected into a nil
        slice, so an empty result is nil as well. */
    method PackPolicies(statements: array<PolicyStatement>, baseSize: int)
      returns (result: Option<seq<seq<PolicyStatement>>>)
      requires userInput.maxFiles >= 0
      modifies statements
      ensures NonIncreasing(statements[..])
      ensures multiset(statements[..]) == old(multiset(statements[..]))
      ensures result == LegacyPacking(statements[..], userInput.maxFiles, baseSize)
    {
      Pack.SortBySizeDesc(statements);
      ghost var sorted := statements[..];
      var n := userInput.maxFiles;
      var files, fileSizes := Pack.NewFiles<Origin>(n, baseSize);

      var k := 0;
      while k < statements.Length
        invariant 0 <= k <= statements.Length
        invariant statements[..] == sorted
        invariant Pack.CountersMatch(files, fileSizes, baseSize)
        invariant PlaceAll(baseSize, Initial(n), sorted) == PlaceAll(baseSize, files[..], sorted[k..])
      {
        assert sorted[k..][0] == statements[k] && sorted[k..][1..] == sorted[k + 1..];
        var placed := Pack.PlaceStatement(files, fileSizes, baseSize, statements[k]);
        if !placed {
          return None;
        }
        k := k + 1;
      }
      assert sorted[k..] == [];

      var groups := Pack.NonEmptyFiles(files);
      if groups == [] {
        result := None;
      } else {
        result := Some(groups);
      }
    }

    /** writeOutputFile (policies.go:197-218): the version is written as the
        literal "2012-10-17". */
    method WriteOutputFile(json: Json, filename: string, statements: seq<PolicyStatement>, disk: Disk)
      returns (size: nat, disk': Disk)
      ensures size == |Document(json, userInput.whitespace, Strip(statements))|
      ensures disk' == WriteFile(disk, filename, Document(json, userInput.whitespace, Strip(statements)))
    {
      var contents := new Content[|statements|];
      for i := 0 to |statements|
        invariant forall j :: 0 <= j < i ==> contents[j] == statements[j].payload.content
      {
        contents[i] := statements[i].payload.content;
      }
      var policy := Policy("2012-10-17", contents[..]);
      assert contents[..] == Contents(Strip(statements));
      var data;
      if userInput.whitespace {
        data := json.marshalDocIndent(policy);
      } else {
        data := json.marshalDoc(policy);
      }
      disk' := WriteFile(disk, filename, data);
      size := |data|;
    }

    /** generateMultipleFiles (policies.go:154-168): corsetN.json in the
        output directory; the delete option has no effect here. */
    method GenerateMultipleFiles(json: Json, paths: PathLib, packedFiles: seq<seq<PolicyStatement>>,
                                 outputDir: string, disk: Disk) returns (disk': Disk)
      ensures disk' == LegacyWritten(json, userInput.whitespace, paths, MultipleInputs(outputDir),
                                     packedFiles, disk, |packedFiles|)
    {
      disk' := disk;
      for i := 0 to |packedFiles|
        invariant disk' == LegacyWritten(json, userInput.whitespace, paths, MultipleInputs(outputDir),
                                         packedFiles, disk, i)
      {
        var filename := paths.join(outputDir, "corset" + Decimal(i + 1) + ".json");
        assert filename == LegacyFilename(paths, MultipleInputs(outputDir), i + 1);
        var size;
        size, disk' := WriteOutputFile(json, filename, packedFiles[i], disk');
      }
    }

    /** generateSingleFile (policies.go:170-195): one group is written to
        "<name>_corset.json", several to "<name>_corsetN.json"; with the
        delete option the original file is removed afterwards in every case. */
    method GenerateSingleFile(json: Json, paths: PathLib, packedFiles: seq<seq<PolicyStatement>>,
                              originalFile: string, disk: Disk) returns (disk': Disk)
      ensures disk' == SingleFileDisk(json, userInput, paths, packedFiles, originalFile, disk)
    {
      var naming := SingleInput(originalFile, |packedFiles|);
      disk' := disk;
      if |packedFiles| == 1 {
        var base := TrimSuffix(originalFile, ".json");
        var filename := base + CorsetSuffix + ".json";
        var size;
        size, disk' := WriteOutputFile(json, filename, packedFiles[0], disk');
        assert LegacyFilename(paths, naming, 1) == filename;
        assert disk' == LegacyWritten(json, userInput.whitespace, paths, naming, packedFiles, disk, 1);
      } else {
        var base := TrimSuffix(originalFile, ".json");
        for i := 0 to |packedFiles|
          invariant disk' == LegacyWritten(json, userInput.whitespace, paths, naming, packedFiles, disk, i)
        {
          var filename := base + CorsetSuffix + Decimal(i + 1) + ".json";
          assert filename == LegacyFilename(paths, naming, i + 1);
          var size;
          size, disk' := WriteOutputFile(json, filename, packedFiles[i], disk');
        }
      }
      if userInput.delete {
        disk' := RemoveFile(disk', originalFile);
      }
    }

    /** ProcessFiles (policies.go:34-73), with `response` the line read at
        the confirmation prompt and without the console output. The answer
        is read but not acted on: a refusal is reported and processing goes
        on, so a single input is still removed. The packing result is used
        unchecked: for a single input with the delete option, a failed
        packing writes nothing and still removes the original. */
    method ProcessFiles(json: Json, paths: PathLib, files: seq<string>, disk: Disk, response: string)
      returns (disk': Disk, ghost sorted: seq<PolicyStatement>)
      requires userInput.maxFiles >= 0
      ensures LegacyStatements(json, disk, files) == [] ==> disk' == disk
      ensures LegacyStatements(json, disk, files) != [] ==>
        NonIncreasing(sorted) && multiset(sorted) == multiset(LegacyStatements(json, disk, files)) &&
        disk' == LegacyOutputDisk(json, userInput, paths,
                   OrEmpty(LegacyPacking(sorted, userInput.maxFiles, CalculateBaseSize())), files, disk)
      ensures (HasOversized(LegacyStatements(json, disk, files), CalculateBaseSize()) &&
               |files| == 1 && userInput.delete) ==> disk' == RemoveFile(disk, files[0])
      ensures (Cancelled(userInput, response) && |files| == 1 &&
               LegacyStatements(json, disk, files) != []) ==> files[0] !in disk'
    {
      var allStatements := CollectStatements(json, disk, files);
      sorted := allStatements;
      if |allStatements| == 0 {
        return disk, sorted;
      }
      var baseSize := CalculateBaseSize();
      var slice := new PolicyStatement[|allStatements|](i requires 0 <= i < |allStatements| => allStatements[i]);
      assert slice[..] == allStatements;
      var packedFiles := PackPolicies(slice, baseSize);
      sorted := slice[..];
      if HasOversized(allStatements, baseSize) {
        OversizedInAnyOrder(allStatements, sorted, userInput.maxFiles, baseSize);
      }
      var outputDir := paths.dir(files[0]);
      if |files| > 1 {
        disk' := GenerateMultipleFiles(json, paths, OrEmpty(packedFiles), outputDir, disk);
      } else {
        disk' := GenerateSingleFile(json, paths, OrEmpty(packedFiles), files[0], disk);
      }
    }

    /** ProcessFiles with a refusal at the prompt honoured, the whole empty
        document, brackets included, charged as the overhead, and the
        failure value checked before any output: a cancelled run, and a
        failed packing, leave every file as it was. */
    method ProcessFilesChecked(json: Json, paths: PathLib, files: seq<string>, disk: Disk, response: string)
      returns (disk': Disk, ghost sorted: seq<PolicyStatement>)
      requires userInput.maxFiles >= 0
      ensures Cancelled(userInput, response) ==> disk' == disk
      ensures LegacyStatements(json, disk, files) == [] ==> disk' == disk
      ensures (!Cancelled(userInput, response) && LegacyStatements(json, disk, files) != []) ==>
        NonIncreasing(sorted) && multiset(sorted) == multiset(LegacyStatements(json, disk, files)) &&
        var packing := LegacyPacking(sorted, userInput.maxFiles, CalculateBaseSize() + 2);
        disk' == if packing.None? then disk else LegacyOutputDisk(json, userInput, paths, packing.value, files, disk)
      ensures HasOversized(LegacyStatements(json, disk, files), CalculateBaseSize() + 2) ==> disk' == disk
    {
      sorted := [];
      if Cancelled(userInput, response) {
        return disk, sorted;
      }
      var allStatements := CollectStatements(json, disk, files);
      sorted := allStatements;
      if |allStatements| == 0 {
        return disk, sorted;
      }
      var baseSize := CalculateBaseSize() + 2;
      var slice := new PolicyStatement[|allStatements|](i requires 0 <= i < |allStatements| => allStatements[i]);
      assert slice[..] == allStatements;
      var packedFiles := PackPolicies(slice, baseSize);
      sorted := slice[..];
      if HasOversized(allStatements, baseSize) {
        OversizedInAnyOrder(allStatements, sorted, userInput.maxFiles, baseSize);
      }
      if packedFiles.None? {
        return disk, sorted;
      }
      var outputDir := paths.dir(files[0]);
      if |files| > 1 {
        disk' := GenerateMultipleFiles(json, paths, packedFiles.value, outputDir, disk);
      } else {
        disk' := GenerateSingleFile(json, paths, packedFiles.value, files[0], disk);
      }
    }
  }
}
