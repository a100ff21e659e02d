/** The output stage of internal/core/outputs.go: naming the output files,
    assembling each group into a policy document, writing the documents and,
    outside single-file mode, removing the inputs. The file system is the
    `Disk` map; every step that changes it returns the new map. */
module Outputs {
  import opened Types
  import opened Config
  import opened Paths
  import opened PackSpec

  /** The branch condition of buildOutput and generateOutputFilename: one
      input file that is not a directory is rewritten in place. */
  predicate SingleFileMode(userInput: UserInput, inputFiles: seq<string>)
  {
    !userInput.isDirectory && |inputFiles| == 1
  }

  /** generateOutputFilename (outputs.go:49-72). */
  function GenerateOutputFilename(paths: PathLib, userInput: UserInput, outputDir: string,
                                  fileNum: int, inputFiles: seq<string>): string
  {
    if SingleFileMode(userInput, inputFiles) then
      var originalFile := inputFiles[0];
      if fileNum == 1 then originalFile
      else
        var ext := Ext(originalFile);
        var nameWithoutExt := originalFile[..|originalFile| - |ext|];
        nameWithoutExt + "-" + Decimal(fileNum) + ext
    else if userInput.isDirectory then
      var baseName := Base(userInput.target);
      if fileNum == 1 then paths.join(outputDir, baseName + ".json")
      else paths.join(outputDir, baseName + "-" + Decimal(fileNum) + ".json")
    else
      paths.join(outputDir, "corset" + Decimal(fileNum) + ".json")
  }

  /** The policy document a group becomes: version SCPVersion and the
      group's contents in order. */
  function Contents(statements: seq<Statement>): (cs: seq<Content>)
    ensures |cs| == |statements|
    ensures forall i :: 0 <= i < |cs| ==> cs[i] == statements[i].payload
  {
    if statements == [] then []
    else Contents(statements[..|statements| - 1]) + [statements[|statements| - 1].payload]
  }

  /** json.MarshalIndent(_, "", "  ") when whitespace is kept, json.Marshal otherwise. */
  function Encode(json: Json, whitespace: bool, policy: Policy): seq<byte>
  {
    if whitespace then json.marshalDocIndent(policy) else json.marshalDoc(policy)
  }

  /** The bytes written for one group. */
  function Document(json: Json, whitespace: bool, statements: seq<Statement>): seq<byte>
  {
    Encode(json, whitespace, Policy(SCPVersion, Contents(statements)))
  }

  /** The disk after the first k groups have been written, group i under
      file number i+1. */
  function Written(json: Json, paths: PathLib, userInput: UserInput, packedFiles: seq<seq<Statement>>,
                   outputDir: string, inputFiles: seq<string>, disk: Disk, k: nat): Disk
    requires k <= |packedFiles|
  {
    if k == 0 then disk
    else WriteFile(Written(json, paths, userInput, packedFiles, outputDir, inputFiles, disk, k - 1),
                   GenerateOutputFilename(paths, userInput, outputDir, k, inputFiles),
                   Document(json, userInput.whitespace, packedFiles[k - 1]))
  }

  /** The disk after os.Remove of every listed file, in order. */
  function Removed(disk: Disk, files: seq<string>): (r: Disk)
    ensures forall f :: f in files ==> f !in r
    ensures forall p :: p !in files ==> (p in r <==> p in disk) && (p in r ==> r[p] == disk[p])
  {
    if files == [] then disk else RemoveFile(Removed(disk, files[..|files| - 1]), files[|files| - 1])
  }

  /** The output directory of buildOutput (outputs.go:14-21). */
  function OutputDir(paths: PathLib, userInput: UserInput, inputFiles: seq<string>): string
    requires userInput.isDirectory || |inputFiles| > 0
  {
    if userInput.isDirectory then userInput.target else paths.dir(inputFiles[0])
  }

  /** The disk after buildOutput: all groups written, then the inputs
      removed unless in single-file mode. */
  function OutputDisk(json: Json, paths: PathLib, userInput: UserInput, packedFiles: seq<seq<Statement>>,
                      inputFiles: seq<string>, disk: Disk): Disk
    requires userInput.isDirectory || |inputFiles| > 0
  {
    var written := Written(json, paths, userInput, packedFiles, OutputDir(paths, userInput, inputFiles),
                           inputFiles, disk, |packedFiles|);
    if SingleFileMode(userInput, inputFiles) then written else Removed(written, inputFiles)
  }

  /** writeJSON (outputs.go:80-96). */
  method WriteJSON(json: Json, userInput: UserInput, statements: seq<Statement>) returns (data: seq<byte>)
    ensures data == Document(json, userInput.whitespace, statements)
  {
    var contents := new Content[|statements|];
    for i := 0 to |statements|
      invariant forall j :: 0 <= j < i ==> contents[j] == statements[j].payload
    {
      contents[i] := statements[i].payload;
    }
    var policy := Policy(SCPVersion, contents[..]);
    assert contents[..] == Contents(statements);
    if userInput.whitespace {
      data := json.marshalDocIndent(policy);
    } else {
      data := json.marshalDoc(policy);
    }
  }

  /** writeOutputFile (outputs.go:74-78): the size reported is the length of
      the bytes written. */
  method WriteOutputFile(json: Json, userInput: UserInput, filename: string, statements: seq<Statement>,
                         disk: Disk) returns (size: nat, disk': Disk)
    ensures size == |Document(json, userInput.whitespace, statements)|
    ensures disk' == WriteFile(disk, filename, Document(json, userInput.whitespace, statements))
  {
    var data := WriteJSON(json, userInput, statements);
    disk' := WriteFile(disk, filename, data);
    size := |data|;
  }

  /** The results reported for the first k groups: group i as file
      number i+1, with the size of its document and its statement count. */
  function Reports(json: Json, paths: PathLib, userInput: UserInput, packedFiles: seq<seq<Statement>>,
                   outputDir: string, inputFiles: seq<string>, k: nat): (r: seq<WriteResult>)
    requires k <= |packedFiles|
    ensures |r| == k
    ensures forall i :: 0 <= i < k ==>
      r[i] == WriteResult(GenerateOutputFilename(paths, userInput, outputDir, i + 1, inputFiles),
                          |Document(json, userInput.whitespace, packedFiles[i])|,
                          |packedFiles[i]|)
  {
    if k == 0 then []
    else Reports(json, paths, userInput, packedFiles, outputDir, inputFiles, k - 1) +
         [WriteResult(GenerateOutputFilename(paths, userInput, outputDir, k, inputFiles),
                      |Document(json, userInput.whitespace, packedFiles[k - 1])|,
                      |packedFiles[k - 1]|)]
  }

  /** orchestrateOutputFiles (outputs.go:35-47). */
  method OrchestrateOutputFiles(json: Json, paths: PathLib, userInput: UserInput,
                                packedFiles: seq<seq<Statement>>, outputDir: string,
                                inputFiles: seq<string>, disk: Disk)
    returns (results: seq<WriteResult>, disk': Disk)
    ensures results == Reports(json, paths, userInput, packedFiles, outputDir, inputFiles, |packedFiles|)
    ensures disk' == Written(json, paths, userInput, packedFiles, outputDir, inputFiles, disk, |packedFiles|)
  {
    results := [];
    disk' := disk;
    for i := 0 to |packedFiles|
      invariant results == Reports(json, paths, userInput, packedFiles, outputDir, inputFiles, i)
      invariant disk' == Written(json, paths, userInput, packedFiles, outputDir, inputFiles, disk, i)
    {
      var statements := packedFiles[i];
      var filename := GenerateOutputFilename(paths, userInput, outputDir, i + 1, inputFiles);
      var size;
      size, disk' := WriteOutputFile(json, userInput, filename, statements, disk');
      results := results + [WriteResult(filename, size, |statements|)];
    }
  }

  /** replaceInputFiles (outputs.go:106-110): every listed input is removed,
      whatever it now holds. */
  method ReplaceInputFiles(userInput: UserInput, inputFiles: seq<string>, disk: Disk) returns (disk': Disk)
    ensures disk' == Removed(disk, inputFiles)
  {
    disk' := disk;
    for i := 0 to |inputFiles|
      invariant disk' == Removed(disk, inputFiles[..i])
    {
      assert inputFiles[..i + 1][..i] == inputFiles[..i];
      disk' := RemoveFile(disk', inputFiles[i]);
    }
    assert inputFiles[..|inputFiles|] == inputFiles;
  }

  /** buildOutput (outputs.go:13-33), without the console report. */
  method BuildOutput(json: Json, paths: PathLib, userInput: UserInput, packedFiles: seq<seq<Statement>>,
                     inputFiles: seq<string>, disk: Disk)
    returns (results: seq<WriteResult>, disk': Disk)
    requires userInput.isDirectory || |inputFiles| > 0
    ensures results == Reports(json, paths, userInput, packedFiles, OutputDir(paths, userInput, inputFiles),
                               inputFiles, |packedFiles|)
    ensures disk' == OutputDisk(json, paths, userInput, packedFiles, inputFiles, disk)
  {
    var outputDir: string;
    if userInput.isDirectory {
      outputDir := userInput.target;
    } else {
      outputDir := paths.dir(inputFiles[0]);
    }
    if !userInput.isDirectory && |inputFiles| == 1 {
      results, disk' := OrchestrateOutputFiles(json, paths, userInput, packedFiles, outputDir, inputFiles, disk);
    } else {
      results, disk' := OrchestrateOutputFiles(json, paths, userInput, packedFiles, outputDir, inputFiles, disk);
      disk' := ReplaceInputFiles(userInput, inputFiles, disk');
    }
  }

  // Properties of the naming policy.

  /** Two different middles give two different strings between the same ends. */
  lemma InfixDistinct(a: string, x: string, y: string, b: string)
    requires x != y
    ensures a + x + b != a + y + b
  {
    var s, t := a + x + b, a + y + b;
    if |x| == |y| {
      assert s[|a|..|a| + |x|] == x;
      assert t[|a|..|a| + |y|] == y;
    } else {
      assert |s| != |t|;
    }
  }

  /** A stem and extension with "-N" in between for N other than 1. */
  function Numbered(stem: string, n: int, ext: string): string
  {
    if n == 1 then stem + ext else stem + "-" + Decimal(n) + ext
  }

  lemma NumberedDistinct(stem: string, ext: string, m: int, n: int)
    requires m != n
    ensures Numbered(stem, m, ext) != Numbered(stem, n, ext)
  {
    assert stem + ext == stem + "" + ext;
    assert stem + "-" + Decimal(m) + ext == stem + ("-" + Decimal(m)) + ext;
    assert stem + "-" + Decimal(n) + ext == stem + ("-" + Decimal(n)) + ext;
    if m == 1 {
      InfixDistinct(stem, "", "-" + Decimal(n), ext);
    } else if n == 1 {
      InfixDistinct(stem, "-" + Decimal(m), "", ext);
    } else {
      DecimalInjective(m, n);
      assert ("-" + Decimal(m))[1..] == Decimal(m);
      assert ("-" + Decimal(n))[1..] == Decimal(n);
      InfixDistinct(stem, "-" + Decimal(m), "-" + Decimal(n), ext);
    }
  }

  /** Single-file mode: file 1 is the input itself; file N > 1 keeps the
      input's extension and carries "-N" right before it. */
  lemma SingleFileNaming(paths: PathLib, userInput: UserInput, outputDir: string, inputFiles: seq<string>, n: int)
    requires SingleFileMode(userInput, inputFiles)
    ensures n == 1 ==> GenerateOutputFilename(paths, userInput, outputDir, n, inputFiles) == inputFiles[0]
    ensures n != 1 ==>
      var name := GenerateOutputFilename(paths, userInput, outputDir, n, inputFiles);
      var original := inputFiles[0];
      Ext(name) == Ext(original) &&
      name[..|name| - |Ext(name)|] == original[..|original| - |Ext(original)|] + "-" + Decimal(n)
  {
    if n != 1 {
      var original := inputFiles[0];
      var ext := Ext(original);
      var stem := original[..|original| - |ext|];
      var name := stem + "-" + Decimal(n) + ext;
      assert GenerateOutputFilename(paths, userInput, outputDir, n, inputFiles) == name;
      if ext == "" {
        assert stem == original;
        var tail := "-" + Decimal(n);
        assert name == stem + tail;
        NoExtOfAppended(stem, tail);
      } else {
        ExtOfAppended(stem + "-" + Decimal(n), ext);
      }
      assert name[..|name| - |ext|] == stem + "-" + Decimal(n);
    }
  }

  /** Directory mode: file N is named after the target directory inside the
      output directory, with extension ".json". */
  lemma DirectoryNaming(paths: PathLib, userInput: UserInput, outputDir: string, inputFiles: seq<string>, n: int)
    requires userInput.isDirectory
    ensures var leaf := if n == 1 then Base(userInput.target) + ".json"
                        else Base(userInput.target) + "-" + Decimal(n) + ".json";
      GenerateOutputFilename(paths, userInput, outputDir, n, inputFiles) == paths.join(outputDir, leaf) &&
      Ext(leaf) == ".json"
  {
    var b := Base(userInput.target);
    ExtOfAppended(b, ".json");
    ExtOfAppended(b + "-" + Decimal(n), ".json");
  }

  /** Several inputs outside directory mode: file N is corsetN.json in the
      output directory. */
  lemma FallbackNaming(paths: PathLib, userInput: UserInput, outputDir: string, inputFiles: seq<string>, n: int)
    requires !userInput.isDirectory && |inputFiles| != 1
    ensures GenerateOutputFilename(paths, userInput, outputDir, n, inputFiles) ==
      paths.join(outputDir, "corset" + Decimal(n) + ".json")
    ensures Ext("corset" + Decimal(n) + ".json") == ".json"
  {
    ExtOfAppended("corset" + Decimal(n), ".json");
  }

  /** Different file numbers never name the same file, provided Join keeps
      different leaf names apart. */
  lemma OutputNamesDistinct(paths: PathLib, userInput: UserInput, outputDir: string, inputFiles: seq<string>,
                            m: int, n: int)
    requires m != n
    requires !SingleFileMode(userInput, inputFiles) ==>
      forall a, b :: paths.join(outputDir, a) == paths.join(outputDir, b) ==> a == b
    ensures GenerateOutputFilename(paths, userInput, outputDir, m, inputFiles) !=
            GenerateOutputFilename(paths, userInput, outputDir, n, inputFiles)
  {
    if SingleFileMode(userInput, inputFiles) {
      var original := inputFiles[0];
      var ext := Ext(original);
      var stem := original[..|original| - |ext|];
      assert original == stem + ext;
      NumberedDistinct(stem, ext, m, n);
      assert GenerateOutputFilename(paths, userInput, outputDir, m, inputFiles) == Numbered(stem, m, ext);
      assert GenerateOutputFilename(paths, userInput, outputDir, n, inputFiles) == Numbered(stem, n, ext);
    } else if userInput.isDirectory {
      var b := Base(userInput.target);
      NumberedDistinct(b, ".json", m, n);
      assert GenerateOutputFilename(paths, userInput, outputDir, m, inputFiles) == paths.join(outputDir, Numbered(b, m, ".json"));
      assert GenerateOutputFilename(paths, userInput, outputDir, n, inputFiles) == paths.join(outputDir, Numbered(b, n, ".json"));
    } else {
      DecimalInjective(m, n);
      InfixDistinct("corset", Decimal(m), Decimal(n), ".json");
    }
  }

  // Properties of the disk effects.

  /** Writing groups never removes a file, and leaves alone every file that
      is not one of the output names. */
  lemma {:induction false} WrittenFrame(json: Json, paths: PathLib, userInput: UserInput,
                                        packedFiles: seq<seq<Statement>>, outputDir: string,
                                        inputFiles: seq<string>, disk: Disk, k: nat)
    requires k <= |packedFiles|
    ensures forall p :: p in disk ==> p in Written(json, paths, userInput, packedFiles, outputDir, inputFiles, disk, k)
    ensures forall p :: (forall n :: 1 <= n <= k ==> p != GenerateOutputFilename(paths, userInput, outputDir, n, inputFiles)) ==>
      var w := Written(json, paths, userInput, packedFiles, outputDir, inputFiles, disk, k);
      (p in w <==> p in disk) && (p in w ==> w[p] == disk[p])
  {
    if k > 0 {
      WrittenFrame(json, paths, userInput, packedFiles, outputDir, inputFiles, disk, k - 1);
    }
  }

  /** True when file numbers 1..k get pairwise different names. */
  predicate NamesDistinct(paths: PathLib, userInput: UserInput, outputDir: string, inputFiles: seq<string>, k: nat)
  {
    forall m, n :: 1 <= m < n <= k ==>
      GenerateOutputFilename(paths, userInput, outputDir, m, inputFiles) !=
      GenerateOutputFilename(paths, userInput, outputDir, n, inputFiles)
  }

  /** True when output file n holds the document of group n-1. */
  predicate Holds(json: Json, paths: PathLib, userInput: UserInput, packedFiles: seq<seq<Statement>>,
                  outputDir: string, inputFiles: seq<string>, w: Disk, n: nat)
    requires 1 <= n <= |packedFiles|
  {
    var name := GenerateOutputFilename(paths, userInput, outputDir, n, inputFiles);
    name in w && w[name] == Document(json, userInput.whitespace, packedFiles[n - 1])
  }

  /** When the output names are pairwise distinct, output file n holds
      exactly the document of group n-1. */
  lemma {:induction false} WrittenHolds(json: Json, paths: PathLib, userInput: UserInput,
                                        packedFiles: seq<seq<Statement>>, outputDir: string,
                                        inputFiles: seq<string>, disk: Disk, k: nat)
    requires k <= |packedFiles|
    requires NamesDistinct(paths, userInput, outputDir, inputFiles, k)
    ensures forall n :: 1 <= n <= k ==>
      Holds(json, paths, userInput, packedFiles, outputDir, inputFiles,
            Written(json, paths, userInput, packedFiles, outputDir, inputFiles, disk, k), n)
  {
    if k > 0 {
      WrittenHolds(json, paths, userInput, packedFiles, outputDir, inputFiles, disk, k - 1);
      var before := Written(json, paths, userInput, packedFiles, outputDir, inputFiles, disk, k - 1);
      var w := Written(json, paths, userInput, packedFiles, outputDir, inputFiles, disk, k);
      var last := GenerateOutputFilename(paths, userInput, outputDir, k, inputFiles);
      forall n | 1 <= n <= k
        ensures Holds(json, paths, userInput, packedFiles, outputDir, inputFiles, w, n)
      {
        if n < k {
          assert Holds(json, paths, userInput, packedFiles, outputDir, inputFiles, before, n);
          assert GenerateOutputFilename(paths, userInput, outputDir, n, inputFiles) != last;
        }
      }
    }
  }

  /** In single-file mode buildOutput removes nothing: every file that
      existed still exists, and output file n holds group n-1's document. */
  lemma SingleFileKeepsFiles(json: Json, paths: PathLib, userInput: UserInput,
                             packedFiles: seq<seq<Statement>>, inputFiles: seq<string>, disk: Disk)
    requires SingleFileMode(userInput, inputFiles)
    ensures forall p :: p in disk ==> p in OutputDisk(json, paths, userInput, packedFiles, inputFiles, disk)
    ensures forall n :: 1 <= n <= |packedFiles| ==>
      Holds(json, paths, userInput, packedFiles, OutputDir(paths, userInput, inputFiles), inputFiles,
            OutputDisk(json, paths, userInput, packedFiles, inputFiles, disk), n)
  {
    var outputDir := OutputDir(paths, userInput, inputFiles);
    WrittenFrame(json, paths, userInput, packedFiles, outputDir, inputFiles, disk, |packedFiles|);
    forall m, n | 1 <= m < n <= |packedFiles|
      ensures GenerateOutputFilename(paths, userInput, outputDir, m, inputFiles) !=
              GenerateOutputFilename(paths, userInput, outputDir, n, inputFiles)
    {
      OutputNamesDistinct(paths, userInput, outputDir, inputFiles, m, n);
    }
    WrittenHolds(json, paths, userInput, packedFiles, outputDir, inputFiles, disk, |packedFiles|);
  }

  /** Outside single-file mode every input is gone afterwards, even one that
      an output was just written to, and every other file is as after the
      writes. */
  lemma OtherModesRemoveInputs(json: Json, paths: PathLib, userInput: UserInput,
                               packedFiles: seq<seq<Statement>>, inputFiles: seq<string>, disk: Disk)
    requires userInput.isDirectory || |inputFiles| > 1
    ensures forall f :: f in inputFiles ==> f !in OutputDisk(json, paths, userInput, packedFiles, inputFiles, disk)
    ensures forall p :: p !in inputFiles ==>
      var written := Written(json, paths, userInput, packedFiles, OutputDir(paths, userInput, inputFiles),
                             inputFiles, disk, |packedFiles|);
      var out := OutputDisk(json, paths, userInput, packedFiles, inputFiles, disk);
      (p in out <==> p in written) && (p in out ==> out[p] == written[p])
  {
  }

  // The length of a minified document.

  /** The lengths of the entries' minified encodings, added up. */
  function EncodedSum(json: Json, cs: seq<Content>): nat
  {
    if cs == [] then 0 else EncodedSum(json, cs[..|cs| - 1]) + |json.marshal(cs[|cs| - 1])|
  }

  /** How json.Marshal lays out a policy document (outputs.go:94): the
      minified skeleton, with the statements' own minified encodings,
      comma-separated, between the brackets of its statement array. */
  ghost predicate MinifiedLayout(json: Json)
  {
    forall cs :: |json.marshalDoc(Policy(SCPVersion, cs))| ==
      |SCPBaseStructure| + EncodedSum(json, cs) + (if cs == [] then 0 else |cs| - 1)
  }

  /** Every statement of g is sized by the encoding of its content, as the
      extraction sizes them. */
  ghost predicate Measured(json: Json, g: seq<Statement>)
  {
    forall s :: s in g ==> s.size == |json.marshal(s.payload)|
  }

  /** For measured statements the encodings of the contents add up to the
      sizes. */
  lemma {:induction false} EncodedSumOfContents(json: Json, g: seq<Statement>)
    requires Measured(json, g)
    ensures EncodedSum(json, Contents(g)) == SizeSum(g)
  {
    if g != [] {
      var front := g[..|g| - 1];
      assert g[|g| - 1] in g;
      assert Measured(json, front) by {
        forall s | s in front ensures s in g {
        }
      }
      EncodedSumOfContents(json, front);
      var cs := Contents(g);
      assert cs == Contents(front) + [g[|g| - 1].payload];
      assert cs[..|cs| - 1] == Contents(front);
    }
  }

  /** A minified document is two characters longer than the counter the
      packer keeps for its group: the counter's overhead leaves out the
      "[]" that json.Marshal still writes around the statements. */
  lemma MinifiedDocumentLength(json: Json, g: seq<Statement>)
    requires MinifiedLayout(json) && Measured(json, g)
    ensures |Document(json, false, g)| == Load(Overhead(false), g) + 2
  {
    EncodedSumOfContents(json, g);
    var cs := Contents(g);
    assert |json.marshalDoc(Policy(SCPVersion, cs))| ==
      |SCPBaseStructure| + EncodedSum(json, cs) + (if cs == [] then 0 else |cs| - 1);
  }

  /** As written: a statement whose encoding is 5083 characters long passes
      the placement test (37 + 5083 = 5120) and is packed alone, yet the
      document written for it is 5122 characters long. */
  lemma MinifiedOverflow(json: Json, c: Content)
    requires MinifiedLayout(json) && |json.marshal(c)| == 5083
    ensures FirstFitDecreasing([Entry(c, 5083)], DefaultMaxFiles, Overhead(false)) == Some([[Entry(c, 5083)]])
    ensures |Document(json, false, [Entry(c, 5083)])| == 5122 > MaxPolicySize
  {
    var x := Entry(c, 5083);
    LoadAppend(37, [], x);
    assert [] + [x] == [x];
    var g0 := Initial<Content>(5);
    PlaceIsFirstFit(37, g0, x, 0);
    var g1 := g0[0 := [x]];
    assert g0[0] + [x] == [x];
    PlaceAllStep(37, g0, [x], g1);
    assert [x][1..] == [];
    assert PlaceAll(37, g0, [x]) == Some(g1);
    assert g1 == [[x]] + Initial(4);
    DropEmptyConcat([[x]], Initial(4));
    DropEmptyKeepsAll([[x]]);
    DropEmptyInitial<Content>(4);
    assert DropEmpty(g1) == [[x]];
    assert Overhead(false) == 37 && DefaultMaxFiles == 5;
    MinifiedDocumentLength(json, [x]);
  }

  /** Corrected: with the whole empty document as the overhead, every group
      of a successful packing is written as a minified document of at most
      MaxPolicySize characters. */
  lemma FullOverheadDocumentsFit(json: Json, sorted: seq<Statement>, maxFiles: nat)
    requires MinifiedLayout(json) && Measured(json, sorted)
    requires FirstFitDecreasing(sorted, maxFiles, Overhead(false) + 2).Some?
    ensures forall g :: g in FirstFitDecreasing(sorted, maxFiles, Overhead(false) + 2).value ==>
      |Document(json, false, g)| <= MaxPolicySize
  {
    var base := Overhead(false) + 2;
    var r := FirstFitDecreasing(sorted, maxFiles, base).value;
    Capacity(sorted, maxFiles, base);
    GroupBound(sorted, maxFiles, base);
    Completeness(sorted, maxFiles, base);
    forall g | g in r
      ensures |Document(json, false, g)| <= MaxPolicySize
    {
      forall s | s in g
        ensures s.size == |json.marshal(s.payload)|
      {
        FlattenHas(r, g, s);
        assert s in multiset(Flatten(r));
        assert s in multiset(sorted);
      }
      MinifiedDocumentLength(json, g);
    }
  }
}
