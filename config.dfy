/** Constants of the SCP format and of the AWS limits the packer works against
    (internal/config/config.go). */
module Config {

  /** Default number of output documents a packing may use. */
  const DefaultMaxFiles: nat := 5

  /** Largest number of SCPs that can be attached to one target (AWS OU limit). */
  const MaxAllowedFiles: nat := 5

  /** Character limit of one service-control policy document. */
  const MaxPolicySize: nat := 5120

  /** Suffix of the legacy output file names. */
  const CorsetSuffix: string := "_corset"

  /** The empty policy document, minified. */
  const SCPBaseStructure: string := "{\"Version\":\"2012-10-17\",\"Statement\":[]}"

  /** The empty policy document, indented with two spaces. */
  const SCPBaseWithWS: string := "{\n  \"Version\": \"2012-10-17\",\n  \"Statement\": []\n}"

  /** Overhead of a minified document: the skeleton without its two brackets. */
  const SCPBaseSizeMinified: nat := 37

  /** Overhead of an indented document: the skeleton without its two brackets. */
  const SCPBaseSizeWithWS: nat := 46

  /** The policy language version written into every output document. */
  const SCPVersion: string := "2012-10-17"

  /** The overhead constants are the skeleton lengths minus the "[]" of the
      empty statement array, and those two characters are indeed "[]". */
  lemma BaseSizesMatchSkeletons()
    ensures SCPBaseSizeMinified == |SCPBaseStructure| - 2
    ensures SCPBaseSizeWithWS == |SCPBaseWithWS| - 2
    ensures SCPBaseStructure[|SCPBaseStructure| - 3..|SCPBaseStructure| - 1] == "[]"
    ensures SCPBaseWithWS[|SCPBaseWithWS| - 4..|SCPBaseWithWS| - 2] == "[]"
  {
  }

  /** The overhead charged to every group: the empty document, indented
      when whitespace is kept, without the "[]" of its statement array. */
  function Overhead(whitespace: bool): (n: nat)
    ensures n == |if whitespace then SCPBaseWithWS else SCPBaseStructure| - 2
  {
    BaseSizesMatchSkeletons();
    if whitespace then SCPBaseSizeWithWS else SCPBaseSizeMinified
  }

  /** The minified skeleton carries SCPVersion as the value of "Version". */
  lemma MinifiedSkeletonEmbedsVersion()
    ensures SCPBaseStructure[12..22] == SCPVersion
  {
    assert SCPBaseStructure[12] == SCPVersion[0];
    assert SCPBaseStructure[13] == SCPVersion[1];
    assert SCPBaseStructure[14] == SCPVersion[2];
    assert SCPBaseStructure[15] == SCPVersion[3];
    assert SCPBaseStructure[16] == SCPVersion[4];
    assert SCPBaseStructure[17] == SCPVersion[5];
    assert SCPBaseStructure[18] == SCPVersion[6];
    assert SCPBaseStructure[19] == SCPVersion[7];
    assert SCPBaseStructure[20] == SCPVersion[8];
    assert SCPBaseStructure[21] == SCPVersion[9];
  }

  /** The indented skeleton carries SCPVersion as the value of "Version". */
  lemma IndentedSkeletonEmbedsVersion()
    ensures SCPBaseWithWS[16..26] == SCPVersion
  {
    assert SCPBaseWithWS[16] == SCPVersion[0];
    assert SCPBaseWithWS[17] == SCPVersion[1];
    assert SCPBaseWithWS[18] == SCPVersion[2];
    assert SCPBaseWithWS[19] == SCPVersion[3];
    assert SCPBaseWithWS[20] == SCPVersion[4];
    assert SCPBaseWithWS[21] == SCPVersion[5];
    assert SCPBaseWithWS[22] == SCPVersion[6];
    assert SCPBaseWithWS[23] == SCPVersion[7];
    assert SCPBaseWithWS[24] == SCPVersion[8];
    assert SCPBaseWithWS[25] == SCPVersion[9];
  }

  /** The default file budget is the platform maximum. */
  lemma FileLimits()
    ensures DefaultMaxFiles == MaxAllowedFiles == 5
    ensures MaxPolicySize == 5120
    ensures SCPBaseSizeMinified < SCPBaseSizeWithWS < MaxPolicySize
  {
  }
}
