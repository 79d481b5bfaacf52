/** The `DataReader` mixin (lib/data_reader.rb:7-63) as an object: the state
    it keeps on its host (`@data_path`, `@data_contents`), its accessors, and
    `load`/`include_key` written as the code runs them, step by step, each
    proved to compute what module Loader specifies. */
module Reader {

  import opened Values
  import opened Identifiers
  import opened Merging
  import Loader

  class DataReader {
    /** `@data_path`: the path set with `data_path=`, nil if none. */
    var explicitPath: Option<string>
    /** `@data_contents`: the result of the latest completed load, nil before any. */
    var contents: Option<Doc>
    /** What the host's `default_data_path` gives; None when the host does
        not define it or it gives nil. */
    const hostDefault: Option<string>
    /** The file system together with template rendering and parsing: the
        parsed value of every location that exists, renders and parses. */
    const docs: map<string, Value>

    constructor (hostDefault: Option<string>, docs: map<string, Value>)
      ensures this.hostDefault == hostDefault && this.docs == docs
      ensures explicitPath == None && contents == None
      ensures DataPath() == hostDefault && DataContents() == None
    {
      this.hostDefault := hostDefault;
      this.docs := docs;
      explicitPath := None;
      contents := None;
    }

    /** `data_path=` (lib/data_reader.rb:9-11). Reading the path back gives
        the value set, or the host's default after setting nil, as the gem's
        tests check (spec/data_reader_spec.rb:25-31). */
    method SetDataPath(path: Option<string>)
      modifies this`explicitPath
      ensures explicitPath == path
      ensures path.Some? ==> DataPath() == path
      ensures path.None? ==> DataPath() == hostDefault
    {
      explicitPath := path;
    }

    /** `data_path` (lib/data_reader.rb:14-19). */
    function DataPath(): Option<string>
      reads this`explicitPath
    {
      EffectiveDataPath(explicitPath, hostDefault)
    }

    /** `data_contents` (lib/data_reader.rb:22-26). */
    function DataContents(): Option<Doc>
      reads this`contents
    {
      contents
    }

    /** The world a load from this object runs in, with a rank witnessing
        that its includes form no cycle. */
    ghost function EnvOf(rank: map<string, nat>): Loader.Env
      reads this`explicitPath
    {
      Loader.Env(docs, DataPath(), rank)
    }

    /** `include_data(file)` (lib/data_reader.rb:38-41): the parsed document
        at the location `file` resolves to under the current data path, or
        None when nothing is there. A None, or a document that is not a
        mapping, makes the load of `file` raise, whatever the ranks; a mapping
        is what the load expands (lib/data_reader.rb:33). */
    function IncludeData(file: string): (r: Option<Value>)
      reads this`explicitPath
      ensures r.Some? <==> Resolve(file, DataPath()) in docs
      ensures r.Some? ==> r.value == docs[Resolve(file, DataPath())]
      ensures r.None? || !r.value.Map? ==>
                forall rank: map<string, nat>, b: nat
                  | Loader.Acyclic(EnvOf(rank)) && Loader.TargetBelow(EnvOf(rank), file, b)
                  :: Loader.LoadFile(EnvOf(rank), file, b).Raised?
      ensures r.Some? && r.value.Map? ==>
                forall rank: map<string, nat>, b: nat
                  | Loader.Acyclic(EnvOf(rank)) && Loader.TargetBelow(EnvOf(rank), file, b)
                  :: && Loader.DocBounded(EnvOf(rank), Resolve(file, DataPath()))
                     && Resolve(file, DataPath()) in rank
                     && Loader.LoadFile(EnvOf(rank), file, b)
                        == Loader.IncludeKey(EnvOf(rank), r.value.entries, rank[Resolve(file, DataPath())])
    {
      var path := Resolve(file, DataPath());
      if path in docs then Some(docs[path]) else None
    }

    /** `load(file_list)` (lib/data_reader.rb:28-36): folds the documents of
        the request into an accumulator that starts empty and stores the
        result in `@data_contents`. The nested loads made while expanding
        includes store their own results first; the outer assignment comes
        last. */
    method Load(fileList: string, ghost rank: map<string, nat>, ghost b: nat) returns (res: Result<Doc>)
      requires Loader.Acyclic(EnvOf(rank)) && Loader.IdsBelow(EnvOf(rank), SplitList(fileList), b)
      modifies this`contents
      ensures res == Loader.Load(EnvOf(rank), fileList, b)
      ensures res.Ok? ==> contents == Some(res.value)
      decreases b, 2, 0
    {
      ghost var env := EnvOf(rank);
      var files := SplitList(fileList);
      var allData: Doc := map[];
      var i := 0;
      while i < |files|
        invariant 0 <= i <= |files|
        invariant EnvOf(rank) == env
        invariant Loader.IdsBelow(env, files[..i], b)
        invariant Loader.LoadFiles(env, files[..i], b) == Ok(allData)
      {
        Loader.LoadFilesStep(env, files, i, b, allData);
        ghost var path := Resolve(files[i], DataPath());
        var text := IncludeData(files[i]);
        if text.None? || !text.value.Map? {
          return Raised;
        }
        assert text.value == env.docs[path] == Map(text.value.entries);
        var data := IncludeKey(text.value.entries, rank, rank[path]);
        if data.Raised? {
          return Raised;
        }
        allData := Merge(allData, data.value);
        i := i + 1;
      }
      assert files[..i] == files;
      contents := Some(allData);
      res := Ok(allData);
    }

    /** `include_key(data)` (lib/data_reader.rb:45-62): loads the entries of
        the directive into a side accumulator; deletes the directive; merges
        the accumulator over the literal keys; then replaces every mapping
        value by its own expansion. */
    method IncludeKey(data: Doc, ghost rank: map<string, nat>, ghost r: nat) returns (res: Result<Doc>)
      requires Loader.Acyclic(EnvOf(rank)) && Loader.Bounded(EnvOf(rank), Map(data), r)
      modifies this`contents
      ensures res == Loader.IncludeKey(EnvOf(rank), data, r)
      decreases r, 5, Map(data), 2
    {
      ghost var env := EnvOf(rank);
      var includeData: Doc := map[];
      if Directive in data {
        var included := IncludeEntries(Loader.Entries(data[Directive]), rank, r);
        if included.Raised? {
          return Raised;
        }
        includeData := included.value;
      }
      assert Loader.Included(env, data, r) == Ok(includeData);
      var combined := data - {Directive};
      combined := Merge(combined, includeData);
      assert combined == Loader.Combined(data, includeData);
      res := ExpandValues(data, includeData, combined, rank, r);
    }

    /** The loop of lib/data_reader.rb:49-51: every entry, in order, is
        loaded as a whole request and merged over what the entries before it
        gave. */
    method IncludeEntries(entries: seq<Value>, ghost rank: map<string, nat>, ghost r: nat) returns (res: Result<Doc>)
      requires Loader.Acyclic(EnvOf(rank)) && Loader.EntriesBelow(EnvOf(rank), entries, r)
      modifies this`contents
      ensures res == Loader.IncludeAll(EnvOf(rank), entries, r)
      decreases r, 4, |entries|
    {
      ghost var env := EnvOf(rank);
      var includeData: Doc := map[];
      var i := 0;
      while i < |entries|
        invariant 0 <= i <= |entries|
        invariant EnvOf(rank) == env
        invariant Loader.EntriesBelow(env, entries[..i], r)
        invariant Loader.IncludeAll(env, entries[..i], r) == Ok(includeData)
      {
        Loader.IncludeAllStep(env, entries, i, r, includeData);
        var entry := entries[i];
        if !entry.Str? {
          return Raised;
        }
        var loaded := Load(entry.s, rank, r);
        if loaded.Raised? {
          return Raised;
        }
        includeData := Merge(includeData, loaded.value);
        i := i + 1;
      }
      assert entries[..i] == entries;
      res := Ok(includeData);
    }

    /** The loop of lib/data_reader.rb:57-59 over `combined`, the literal keys
        of `data` with `includeData` merged over them: every value that is a
        mapping is replaced by its expansion; other values stay. */
    method ExpandValues(data: Doc, includeData: Doc, combined: Doc, ghost rank: map<string, nat>, ghost r: nat)
      returns (res: Result<Doc>)
      requires Loader.Acyclic(EnvOf(rank)) && Loader.Bounded(EnvOf(rank), Map(data), r)
      requires Loader.Included(EnvOf(rank), data, r) == Ok(includeData)
      requires combined == Loader.Combined(data, includeData)
      modifies this`contents
      ensures res == Loader.IncludeKey(EnvOf(rank), data, r)
      decreases r, 5, Map(data), 1
    {
      ghost var env := EnvOf(rank);
      var current := combined;
      var pending := current.Keys;
      while pending != {}
        invariant Loader.Expanding(env, data, includeData, r, current, pending)
        decreases pending
      {
        var key :| key in pending;
        Loader.ChildStep(env, data, includeData, key, r);
        var value := current[key];
        if value.Map? {
          var expanded := IncludeKey(value.entries, rank, Loader.ChildBound(includeData, key, r));
          Loader.ExpandStep(env, data, includeData, r, current, pending, key, expanded);
          if expanded.Raised? {
            return Raised;
          }
          current := current[key := Map(expanded.value)];
        } else {
          Loader.ExpandStep(env, data, includeData, r, current, pending, key, Raised);
        }
        pending := pending - {key};
      }
      Loader.IncludeKeyFromChildren(env, data, includeData, r, current);
      res := Ok(current);
    }
  }
}
