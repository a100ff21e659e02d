/** The pipeline of internal/core/process.go: extract every statement, pack
    them, and hand the packing to the output stage. */
module Process {
  import opened Types
  import opened Config
  import opened Paths
  import opened PackSpec
  import opened Extract
  import Pack
  import opened Outputs

  /** Extraction and packing as ProcessFiles does them: the statement slice
      is packed in place, so `sorted` is the order it is left in. */
  method ExtractAndPack(json: Json, userInput: UserInput, files: seq<string>, disk: Disk)
    returns (allStatements: seq<Statement>, ghost sorted: seq<Statement>, packedFiles: Option<seq<seq<Statement>>>)
    requires userInput.maxFiles >= 0
    ensures allStatements == AllStatements(json, disk, files)
    ensures NonIncreasing(sorted) && multiset(sorted) == multiset(allStatements)
    ensures packedFiles == FirstFitDecreasing(sorted, userInput.maxFiles, Overhead(userInput.whitespace))
  {
    allStatements := ExtractAllStatements(json, disk, files);
    var slice := new Statement[|allStatements|](i requires 0 <= i < |allStatements| => allStatements[i]);
    assert slice[..] == allStatements;
    packedFiles := Pack.PackAllStatements(userInput, slice);
    sorted := slice[..];
  }

  /** ProcessFiles (process.go:8-17), without the console output. The
      packing result goes to buildOutput unchecked: when it is the failure
      value outside single-file mode, nothing is written and every input is
      still removed. */
  method ProcessFiles(json: Json, paths: PathLib, userInput: UserInput, files: seq<string>, disk: Disk)
    returns (disk': Disk, ghost sorted: seq<Statement>)
    requires userInput.maxFiles >= 0
    ensures AllStatements(json, disk, files) == [] ==> disk' == disk
    ensures AllStatements(json, disk, files) != [] ==>
      NonIncreasing(sorted) && multiset(sorted) == multiset(AllStatements(json, disk, files)) &&
      disk' == OutputDisk(json, paths, userInput,
                          OrEmpty(FirstFitDecreasing(sorted, userInput.maxFiles, Overhead(userInput.whitespace))), files, disk)
    ensures (HasOversized(AllStatements(json, disk, files), Overhead(userInput.whitespace)) &&
             !SingleFileMode(userInput, files)) ==> disk' == Removed(disk, files)
    ensures (HasOversized(AllStatements(json, disk, files), Overhead(userInput.whitespace)) &&
             SingleFileMode(userInput, files)) ==> disk' == disk
  {
    var allStatements, packedFiles;
    allStatements, sorted, packedFiles := ExtractAndPack(json, userInput, files, disk);
    if |allStatements| == 0 {
      return disk, sorted;
    }
    if HasOversized(allStatements, Overhead(userInput.whitespace)) {
      OversizedInAnyOrder(allStatements, sorted, userInput.maxFiles, Overhead(userInput.whitespace));
    }
    var results;
    results, disk' := BuildOutput(json, paths, userInput, OrEmpty(packedFiles), files, disk);
  }

  /** ProcessFiles corrected twice: the packing charges the whole empty
      document, brackets included, so that a minified group is written
      within MaxPolicySize characters; and the failure value is checked
      before any output, so that a packing that fails leaves every file as
      it was. */
  method ProcessFilesChecked(json: Json, paths: PathLib, userInput: UserInput, files: seq<string>, disk: Disk)
    returns (disk': Disk, ghost sorted: seq<Statement>)
    requires userInput.maxFiles >= 0
    ensures AllStatements(json, disk, files) == [] ==> disk' == disk
    ensures AllStatements(json, disk, files) != [] ==>
      NonIncreasing(sorted) && multiset(sorted) == multiset(AllStatements(json, disk, files)) &&
      var packing := FirstFitDecreasing(sorted, userInput.maxFiles, Overhead(userInput.whitespace) + 2);
      disk' == if packing.None? then disk else OutputDisk(json, paths, userInput, packing.value, files, disk)
    ensures HasOversized(AllStatements(json, disk, files), Overhead(userInput.whitespace) + 2) ==> disk' == disk
    ensures (AllStatements(json, disk, files) != [] && !userInput.whitespace && MinifiedLayout(json)) ==>
      var packing := FirstFitDecreasing(sorted, userInput.maxFiles, Overhead(false) + 2);
      packing.Some? ==> forall g :: g in packing.value ==> |Document(json, false, g)| <= MaxPolicySize
  {
    var allStatements := ExtractAllStatements(json, disk, files);
    sorted := allStatements;
    if |allStatements| == 0 {
      return disk, sorted;
    }
    var slice := new Statement[|allStatements|](i requires 0 <= i < |allStatements| => allStatements[i]);
    assert slice[..] == allStatements;
    var packedFiles := Pack.PackAllStatementsWithinLimit(userInput, slice);
    sorted := slice[..];
    var base := Overhead(userInput.whitespace) + 2;
    if HasOversized(allStatements, base) {
      OversizedInAnyOrder(allStatements, sorted, userInput.maxFiles, base);
    }
    if !userInput.whitespace && MinifiedLayout(json) && packedFiles.Some? {
      SizesAreEncodedLengths(json, disk, files);
      assert Measured(json, sorted) by {
        forall s | s in sorted
          ensures s.size == |json.marshal(s.payload)|
        {
          assert s in multiset(sorted);
          assert s in multiset(allStatements);
        }
      }
      FullOverheadDocumentsFit(json, sorted, userInput.maxFiles);
    }
    if packedFiles.None? {
      return disk, sorted;
    }
    var results;
    results, disk' := BuildOutput(json, paths, userInput, packedFiles.value, files, disk);
  }
}
