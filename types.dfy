/** The records the packer passes around (internal/core/types.go) and the
    collaborators it calls but that are not part of this model: the JSON
    library and the file system. */
module Types {

  datatype Option<T> = None | Some(value: T)

  /** What ranging over a result slice visits: nothing when it is nil. */
  function OrEmpty<T>(o: Option<seq<T>>): seq<T>
  {
    if o.Some? then o.value else []
  }

  /** A byte of a file or of a serialised document. */
  newtype byte = x: int | 0 <= x < 256

  /** The decoded JSON object of one policy statement (a Go
      map[string]interface{}). Its inner structure is never inspected; its
      zero value is Go's nil map. */
  type Content(==, 0, !new)

  /** A sized item: what the packer places. `size` is the length of the
      payload's minified serialisation, computed once at extraction. */
  datatype Entry<P> = Entry(payload: P, size: nat)

  /** A statement of internal/core: its content and its size. */
  type Statement = Entry<Content>

  /** A policy document: a version and its statements in order. */
  datatype Policy = Policy(version: string, statement: seq<Content>)

  /** What one written output file is reported as. */
  datatype WriteResult = WriteResult(filename: string, size: nat, statements: nat)

  /** The parsed command line (internal/inputs/inputs.go). */
  datatype UserInput = UserInput(
    target: string,
    delete: bool,
    whitespace: bool,
    isDirectory: bool,
    maxFiles: int)

  /** The JSON library, left uninterpreted.
      unmarshal: the Statement array that json.Unmarshal leaves in a Policy,
        None when the bytes are not valid JSON (a missing "Statement" field
        gives Some([]));
      marshal: json.Marshal of one statement;
      marshalDoc / marshalDocIndent: json.Marshal / json.MarshalIndent(_, "", "  ")
        of a whole document. */
  datatype Json = Json(
    unmarshal: seq<byte> -> Option<seq<Content>>,
    marshal: Content -> seq<byte>,
    marshalDoc: Policy -> seq<byte>,
    marshalDocIndent: Policy -> seq<byte>)

  /** The file system as a map from path to contents. */
  type Disk = map<string, seq<byte>>

  /** os.ReadFile: None when the file cannot be read. */
  function ReadFile(disk: Disk, path: string): (r: Option<seq<byte>>)
    ensures r.Some? <==> path in disk
    ensures r.Some? ==> r.value == disk[path]
  {
    if path in disk then Some(disk[path]) else None
  }

  /** os.WriteFile: the file now holds exactly `data`, nothing else changes. */
  function WriteFile(disk: Disk, path: string, data: seq<byte>): (r: Disk)
    ensures path in r && r[path] == data
    ensures forall p :: p != path ==> (p in r <==> p in disk) && (p in disk ==> r[p] == disk[p])
  {
    disk[path := data]
  }

  /** os.Remove: the file is gone, nothing else changes. */
  function RemoveFile(disk: Disk, path: string): (r: Disk)
    ensures path !in r
    ensures forall p :: p != path ==> (p in r <==> p in disk) && (p in disk ==> r[p] == disk[p])
  {
    disk - {path}
  }
}
