/** The Loader base class of loaders/loader.py: a per-instance memo of file
    contents, and the root-key check and extraction of load_resource. The file
    system read and the format parser of a subclass are parameters. */
module Loader {
  import opened Common

  /** _load_file_data: the read either yields the file's text or raises an
      IOError, which surfaces as I18nFileLoadError. */
  function ReadFile(read: string -> Option<string>, filename: string): (r: Result<string>)
    ensures r.Success? <==> read(filename).Some?
    ensures r.Success? ==> r.value == read(filename).value
    ensures r.Failure? ==> r.error.FileLoadError?
  {
    match read(filename)
    case Some(text) => Success(text)
    case None => Failure(FileLoadError(filename))
  }

  /** The outcome of one load_file call: its result, the memo afterwards, and
      whether the file was read. */
  datatype Loaded = Loaded(result: Result<string>, memo: map<string, string>, didRead: bool)

  /** load_file(filename) as a function of the memo before the call. */
  function LoadStep(memo: map<string, string>, enabled: bool, read: string -> Option<string>,
                    filename: string): (r: Loaded)
    // the file is read unless memoisation is on and it is already memoised
    ensures r.didRead <==> !(enabled && filename in memo)
    ensures r.didRead ==> r.result == ReadFile(read, filename)
    ensures !r.didRead ==> r.result == Success(memo[filename])
    // the memo never loses or changes an entry, and gains at most this file
    ensures forall f :: f in memo ==> f in r.memo && r.memo[f] == memo[f]
    ensures r.memo.Keys <= memo.Keys + {filename}
    // with memoisation on, a loaded file is memoised with the content returned
    ensures enabled && r.result.Success? ==> filename in r.memo && r.memo[filename] == r.result.value
    ensures !enabled ==> r.memo == memo
  {
    if enabled then
      if filename in memo then Loaded(Success(memo[filename]), memo, false)
      else
        var r := ReadFile(read, filename);
        Loaded(r, if r.Success? then memo[filename := r.value] else memo, true)
    else Loaded(ReadFile(read, filename), memo, true)
  }

  /** check_data(data, root_data): no root asked for, or the root is a key. */
  predicate CheckData(data: map<string, Value>, root: Option<string>)
  {
    root.None? || root.value in data
  }

  /** get_data(data, root_data): the whole data without a root, data[root]
      otherwise (a KeyError when it is absent). */
  function GetData(data: map<string, Value>, root: Option<string>): (r: Result<Value>)
    ensures root.None? ==> r == Success(Dict(data))
    ensures root.Some? && root.value in data ==> r == Success(data[root.value])
    ensures r.Failure? <==> !CheckData(data, root)
  {
    if root.None? then Success(Dict(data))
    else if root.value in data then Success(data[root.value])
    else Failure(KeyNotFound(root.value))
  }

  /** The tail of load_resource: I18nFileLoadError exactly when check_data
      fails, get_data otherwise. */
  function ExtractRoot(filename: string, data: map<string, Value>, root: Option<string>): (r: Result<Value>)
    ensures r.Failure? <==> !CheckData(data, root)
    ensures r.Failure? ==> r.error.FileLoadError?
    ensures r.Success? ==> r == GetData(data, root)
  {
    if !CheckData(data, root) then Failure(FileLoadError(filename))
    else GetData(data, root)
  }

  /** load_resource(filename, root_data) as a function of the memo before the
      call: load_file, parse_file, then the root check and extraction. */
  function ResourceResult(memo: map<string, string>, enabled: bool, read: string -> Option<string>,
                          parse: string -> Result<map<string, Value>>, filename: string,
                          root: Option<string>): (r: Result<Value>)
    // a load_file or parse_file error propagates unchanged
    ensures var step := LoadStep(memo, enabled, read, filename);
            step.result.Failure? ==> r == Failure(step.result.error)
    ensures var step := LoadStep(memo, enabled, read, filename);
            step.result.Success? && parse(step.result.value).Failure? ==> r == Failure(parse(step.result.value).error)
    // on parsed data, the root check decides: I18nFileLoadError or get_data
    ensures var step := LoadStep(memo, enabled, read, filename);
            step.result.Success? && parse(step.result.value).Success? ==>
              var data := parse(step.result.value).value;
              (r.Failure? <==> !CheckData(data, root)) &&
              (r.Failure? ==> r.error.FileLoadError?) &&
              (r.Success? ==> r == GetData(data, root))
  {
    var step := LoadStep(memo, enabled, read, filename);
    if step.result.Failure? then Failure(step.result.error)
    else
      var data := parse(step.result.value);
      if data.Failure? then Failure(data.error) else ExtractRoot(filename, data.value, root)
  }

  class Loader {
    /** memoization_dict: filename -> file content. */
    var memo: map<string, string>
    /** Every file read, in order. */
    ghost var Reads: seq<string>

    constructor ()
      ensures memo == map[] && Reads == []
    {
      memo := map[];
      Reads := [];
    }

    method LoadFileData(filename: string, read: string -> Option<string>) returns (r: Result<string>)
      modifies this
      ensures r == ReadFile(read, filename)
      ensures memo == old(memo) && Reads == old(Reads) + [filename]
    {
      Reads := Reads + [filename];
      var text := read(filename);
      if text.None? {
        return Failure(FileLoadError(filename));
      }
      r := Success(text.value);
    }

    method LoadFile(filename: string, cfg: Config, read: string -> Option<string>) returns (r: Result<string>)
      modifies this
      ensures var step := LoadStep(old(memo), cfg.enableMemoization, read, filename);
              r == step.result && memo == step.memo &&
              Reads == old(Reads) + (if step.didRead then [filename] else [])
    {
      if cfg.enableMemoization {
        if filename !in memo {
          var content := LoadFileData(filename, read);
          if content.Failure? {
            return content;
          }
          memo := memo[filename := content.value];
        }
        r := Success(memo[filename]);
      } else {
        r := LoadFileData(filename, read);
      }
    }

    method LoadResource(filename: string, root: Option<string>, cfg: Config, read: string -> Option<string>,
                        parse: string -> Result<map<string, Value>>) returns (r: Result<Value>)
      modifies this
      ensures var step := LoadStep(old(memo), cfg.enableMemoization, read, filename);
              memo == step.memo && Reads == old(Reads) + (if step.didRead then [filename] else [])
      ensures r == ResourceResult(old(memo), cfg.enableMemoization, read, parse, filename, root)
    {
      var content := LoadFile(filename, cfg, read);
      if content.Failure? {
        return Failure(content.error);
      }
      var data := parse(content.value);
      if data.Failure? {
        return Failure(data.error);
      }
      r := ExtractRoot(filename, data.value, root);
    }
  }

  /** With memoisation on, a file already in the memo is returned from it: no
      read, and the memo stays as it is, whatever the file system now says. */
  lemma MemoHit(memo: map<string, string>, read: string -> Option<string>, filename: string)
    requires filename in memo
    ensures LoadStep(memo, true, read, filename) == Loaded(Success(memo[filename]), memo, false)
  {
  }

  /** The first successful load stores the content; a second load, with any
      read function, returns that content without reading. */
  lemma LoadTwice(memo: map<string, string>, read1: string -> Option<string>,
                  read2: string -> Option<string>, filename: string)
    requires filename !in memo && read1(filename).Some?
    ensures var first := LoadStep(memo, true, read1, filename);
            var second := LoadStep(first.memo, true, read2, filename);
            first.didRead && first.result == Success(read1(filename).value) &&
            !second.didRead && second.result == first.result && second.memo == first.memo
  {
  }

  /** A load never overwrites a memo entry and never touches another file's
      entry: it at most adds the loaded file. */
  lemma LoadKeepsMemo(memo: map<string, string>, enabled: bool, read: string -> Option<string>,
                      filename: string, other: string)
    ensures var after := LoadStep(memo, enabled, read, filename).memo;
            (other in memo ==> other in after && after[other] == memo[other]) &&
            (other != filename ==> (other in after <==> other in memo))
  {
  }

  /** With memoisation off, every call reads and the memo is untouched. */
  lemma LoadDisabled(memo: map<string, string>, read: string -> Option<string>, filename: string)
    ensures LoadStep(memo, false, read, filename) == Loaded(ReadFile(read, filename), memo, true)
  {
  }

  /** A failed read surfaces as I18nFileLoadError and leaves the memo as it
      was (a memoised file is not read at all). */
  lemma LoadFailure(memo: map<string, string>, enabled: bool, read: string -> Option<string>, filename: string)
    requires read(filename).None? && !(enabled && filename in memo)
    ensures var step := LoadStep(memo, enabled, read, filename);
            step.result.Failure? && step.result.error.FileLoadError? && step.memo == memo
  {
  }
}
