/**
 * The record's files as the hosting file service keeps them, and the four
 * service calls the component makes. The service is a collaborator of the
 * component, not part of it: its calls are given here by what they do to the
 * record's entries and by when they raise. Besides its own errors (a key
 * initialised twice, a key that is not there, a commit without content),
 * a call can fail for reasons outside the model (the database, the storage
 * backend, permissions); `faults` names the calls that do.
 */
module Store {
  import opened Wrappers
  import opened Renderers

  type Key = string

  /** An open mapping of metadata names to values; the component reads and writes strings only. */
  type Metadata = map<string, string>

  datatype Status = Pending | Completed

  /** One file entry of a record: no content until some is uploaded. */
  datatype FileEntry = FileEntry(status: Status, metadata: Metadata, content: Option<Bytes>)

  type Files = map<Key, FileEntry>

  /** A call to the file service, named by its kind and key. */
  datatype Call = InitCall(key: Key) | SetContentCall(key: Key) | CommitCall(key: Key) | DeleteCall(key: Key)

  datatype StoreError =
    | StorageFault(call: Call)
    | DuplicateKey(key: Key)
    | FileKeyNotFound(key: Key)
    | MissingContent(key: Key)

  /** What a service call returns, and the record's entries afterwards. */
  datatype Step = Step(outcome: Outcome<StoreError>, files: Files)

  /** `init_files` with one entry: a new pending entry without content. */
  function Init(files: Files, faults: set<Call>, key: Key, metadata: Metadata): Step
  {
    if InitCall(key) in faults then Step(Fail(StorageFault(InitCall(key))), files)
    else if key in files then Step(Fail(DuplicateKey(key)), files)
    else Step(Pass, files[key := FileEntry(Pending, metadata, None)])
  }

  /** `set_file_content`: the entry's content becomes `content`. */
  function SetContent(files: Files, faults: set<Call>, key: Key, content: Bytes): Step
  {
    if SetContentCall(key) in faults then Step(Fail(StorageFault(SetContentCall(key))), files)
    else if key !in files then Step(Fail(FileKeyNotFound(key)), files)
    else Step(Pass, files[key := files[key].(content := Some(content))])
  }

  /** The storage part of `commit_file`: an entry with content becomes completed. */
  function Commit(files: Files, faults: set<Call>, key: Key): Step
  {
    if CommitCall(key) in faults then Step(Fail(StorageFault(CommitCall(key))), files)
    else if key !in files then Step(Fail(FileKeyNotFound(key)), files)
    else if files[key].content.None? then Step(Fail(MissingContent(key)), files)
    else Step(Pass, files[key := files[key].(status := Completed)])
  }

  /** The storage part of `delete_file`: the entry goes away. */
  function Delete(files: Files, faults: set<Call>, key: Key): Step
  {
    if DeleteCall(key) in faults then Step(Fail(StorageFault(DeleteCall(key))), files)
    else if key !in files then Step(Fail(FileKeyNotFound(key)), files)
    else Step(Pass, files - {key})
  }

  /** The file service of one record, holding that record's entries. */
  class FileService {
    var files: Files
    const faults: set<Call>

    constructor (files: Files, faults: set<Call>)
      ensures this.files == files && this.faults == faults
    {
      this.files := files;
      this.faults := faults;
    }

    method InitFile(key: Key, metadata: Metadata) returns (r: Outcome<StoreError>)
      modifies this
      ensures Step(r, files) == Init(old(files), faults, key, metadata)
    {
      if InitCall(key) in faults {
        r := Fail(StorageFault(InitCall(key)));
      } else if key in files {
        r := Fail(DuplicateKey(key));
      } else {
        files := files[key := FileEntry(Pending, metadata, None)];
        r := Pass;
      }
    }

    method SetFileContent(key: Key, content: Bytes) returns (r: Outcome<StoreError>)
      modifies this
      ensures Step(r, files) == SetContent(old(files), faults, key, content)
    {
      if SetContentCall(key) in faults {
        r := Fail(StorageFault(SetContentCall(key)));
      } else if key !in files {
        r := Fail(FileKeyNotFound(key));
      } else {
        files := files[key := files[key].(content := Some(content))];
        r := Pass;
      }
    }

    method CommitFile(key: Key) returns (r: Outcome<StoreError>)
      modifies this
      ensures Step(r, files) == Commit(old(files), faults, key)
    {
      if CommitCall(key) in faults {
        r := Fail(StorageFault(CommitCall(key)));
      } else if key !in files {
        r := Fail(FileKeyNotFound(key));
      } else if files[key].content.None? {
        r := Fail(MissingContent(key));
      } else {
        files := files[key := files[key].(status := Completed)];
        r := Pass;
      }
    }

    method DeleteFile(key: Key) returns (r: Outcome<StoreError>)
      modifies this
      ensures Step(r, files) == Delete(old(files), faults, key)
    {
      if DeleteCall(key) in faults {
        r := Fail(StorageFault(DeleteCall(key)));
      } else if key !in files {
        r := Fail(FileKeyNotFound(key));
      } else {
        files := files - {key};
        r := Pass;
      }
    }
  }
}
