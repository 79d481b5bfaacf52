# data_reader in Dafny

A model of the `DataReader` mixin (`lib/data_reader.rb`). A host object
extends `DataReader`, sets a data directory and calls
`load "a.yml, b.yml"`. The mixin then:

- reads each named file, renders it as ERB and parses it as YAML;
- expands the `_include_` directives the file holds, at any depth of its
  mappings, by loading the named files recursively;
- merges the resulting mappings, the later file winning on a shared key;
- stores the merged result as `data_contents`.

The model has four layers:

- `Values` is the parsed document tree: strings, other scalars, lists and
  string-keyed mappings, plus the reserved `_include_` key.
- `Identifiers` turns a request into locations: the comma split (Ruby's
  `split`, which drops trailing empty fields), `strip`, the `data_path`
  fallback, and resolution against the data path.
- `Merging` is `Hash#merge!` and its left fold.
- `Loader` states, as ghost functions, what `load`, `include_data` and
  `include_key` compute. `LoaderProperties` proves what they promise.
  `Reader` is the object: a class holding `@data_path` and `@data_contents`.
  Its methods run `load` and `include_key` step by step, with the same loops,
  and each method is proved to compute exactly what `Loader` specifies.

Reading a file is a parameter: a map `docs` from location to parsed value
stands for the file system, ERB and YAML together. A location absent from
`docs` is a file that does not exist. Any exception the code can raise is
one outcome, `Raised`.

The code does not guard against include cycles. The model therefore carries a
ghost rank on documents (`Loader.Acyclic`):
- every document a load can reach must have a rank;
- a ranked document may include only documents of lower rank;
- documents without a rank are unconstrained, so a cyclic file that no
  directive met by the load names does not stop the load from being
  modelled.

The rank is demanded of every directive the load meets, including some that
Ruby never runs (see "## Left out").

A named file that does not exist makes the load raise; it is not skipped.
`include_data` returns nil for it (`lib/data_reader.rb:40`). That nil is
passed on to `YAML.safe_load` and then `include_key` (`lib/data_reader.rb:33`),
and the load raises.

## Model

| member | source | states |
|---|---|---|
| Identifiers.StripIsTrimmedSlice | lib/data_reader.rb:30 | A stripped identifier is a contiguous slice of the original with only whitespace removed at either end, and neither of its own ends is whitespace. |
| Identifiers.StripIdempotent | lib/data_reader.rb:30 | Stripping twice equals stripping once. |
| Identifiers.SplitJoinRoundTrip | lib/data_reader.rb:29 | The comma fields of a request, joined back with commas, give the request, and no field holds a comma. |
| Identifiers.DropTrailingEmptyIsPrefix | lib/data_reader.rb:29 | `split` keeps a prefix of the fields; only empty fields at the end are dropped, and what stays does not end in an empty field. |
| Identifiers.SplitListNoComma | lib/data_reader.rb:29-30 | A request without a comma is exactly one identifier, the stripped request. The separate branch only differs from `split` for the empty request. |
| Identifiers.SplitListWithCommas | lib/data_reader.rb:29-30 | A request with commas gives, in order, the stripped comma fields. Only trailing empty fields are left out, and the last one kept is not empty. |
| Identifiers.ResolveCases | lib/data_reader.rb:39 | An absolute identifier is read as is; a relative one is read at the data path text (empty when nil), then one slash, then the identifier. |
| Identifiers.ResolveIdempotent | lib/data_reader.rb:39 | Under an unset, empty or absolute data path every resolved location is absolute, so resolving it again under any data path changes nothing. |
| Merging.Merge | lib/data_reader.rb:34 | `merge!` gives the keys of both sides; a shared key takes the value of the right side, other keys keep theirs. |
| Merging.FoldMergeLastWriteWins | lib/data_reader.rb:32-35 | The fold of merges holds a key iff some document holds it, with the value of the last document that holds it. |
| Merging.MergeDirectiveFree | lib/data_reader.rb:34 | Merging two trees without include directives gives one without them. |
| Loader.Entries | lib/data_reader.rb:49 | `[v].flatten` holds no list. |
| Loader.FlatItems | lib/data_reader.rb:49 | Flattening a list of non-lists gives that list back, in order. |
| Loader.EntriesSingleton | lib/data_reader.rb:49 | A non-list flattens to itself alone, an empty list to nothing, and a one-element list to the flattening of its element. |
| Loader.EntriesSplice | lib/data_reader.rb:49 | Flattening a concatenation concatenates the flattenings: nested lists are spliced in place and every leaf is kept, in order. |
| Loader.LoadFile | lib/data_reader.rb:33 | Loading one file that succeeds gives a tree with no include directive left in it. |
| Loader.Load | lib/data_reader.rb:28-36 | A successful load gives a tree with no include directive left in it. |
| Loader.IncludeAll | lib/data_reader.rb:49-51 | Loading the directive's entries, when it succeeds, gives a directive-free tree. |
| Loader.IncludeKey | lib/data_reader.rb:45-62 | An expansion that succeeds leaves no include directive anywhere along its mappings. |
| Loader.ChildStep | lib/data_reader.rb:57-59 | The value at a key is expanded when it is a mapping and kept otherwise. Included values hold no directive and need a lower rank only. |
| Loader.ExpandStep | lib/data_reader.rb:57-59 | One pass of the value loop: the key's value is replaced by its expansion or kept; a raising expansion makes the whole `include_key` raise. |
| Loader.IncludeKeyFromChildren | lib/data_reader.rb:57-61 | Once every key has been visited, the mapping holds the full expansion. |
| LoaderProperties.IncludeKeyIdentity | lib/data_reader.rb:45-62 | `include_key` on a tree without directives returns that tree unchanged. |
| LoaderProperties.IncludeKeyIdempotent | lib/data_reader.rb:45-62 | Expanding an expanded mapping again changes nothing. |
| LoaderProperties.IncludeKeyShape | lib/data_reader.rb:45-62 | The result's keys are the literal keys less `_include_`, plus the included keys. An included value overrides a literal one and is kept as loaded. A literal non-mapping is kept; a literal mapping is replaced by its own expansion. |
| LoaderProperties.IncludeKeyRaises | lib/data_reader.rb:45-62 | `include_key` raises iff loading the included files raises, or the expansion of a literal mapping value that the included data does not override raises. |
| LoaderProperties.IncludeAllIsFold | lib/data_reader.rb:46-51 | Loading a directive's entries succeeds iff every entry is a string whose request loads, and then gives the left fold of merges of those loads, in order, from `{}`. |
| LoaderProperties.IncludeLastWriteWins | lib/data_reader.rb:49-51 | Within one directive a key is included iff some entry's load has it, with the value of the last such entry: a later entry overrides an earlier one. |
| LoaderProperties.LoadFilesIsFold | lib/data_reader.rb:32-35 | Loading a list succeeds iff every file loads, and then gives the left fold of merges of their documents, in order, from `{}`. |
| LoaderProperties.LoadLastWriteWins | lib/data_reader.rb:28-36 | After a successful load a key is present iff some file of the request has it, and it has the value of the last such file. |
| LoaderProperties.LoadPlainFiles | lib/data_reader.rb:28-36 | Files without directives load to the fold of merges of their parsed contents. |
| LoaderProperties.MissingDocumentRaises | lib/data_reader.rb:33 | A request naming a location that does not exist raises; the file is not skipped. |
| LoaderProperties.TwoFilesExample | lib/data_reader.rb:28-36 | For any two files without directives holding `{x: 1}` and then `{x: 2, y: 3}`, loading them gives `{x: 2, y: 3}`. |
| LoaderProperties.CycleAsideLoads | lib/data_reader.rb:28-36 | With `a.yml` holding `{x: "1"}` beside a `loop.yml` that includes itself, a load of `a.yml` is covered by the model and gives `{x: "1"}`. |
| Reader.DataReader.constructor | lib/data_reader.rb:14-26 | A fresh host has no explicit path, so `data_path` is its default, and `data_contents` is nil. |
| Reader.DataReader.SetDataPath | lib/data_reader.rb:9-19 | After `data_path = p`, `data_path` reads back `p`; after setting nil it falls back to the host's default. |
| Reader.DataReader.IncludeData | lib/data_reader.rb:33-41 | `include_data` gives the document at the resolved location iff that location exists. When it gives nothing, or a document that is not a mapping, loading that file raises for every admissible rank. When it gives a mapping, loading that file is exactly the expansion of that mapping. |
| Reader.DataReader.Load | lib/data_reader.rb:28-36 | The loop over the identifiers returns exactly the `Loader.Load` result, and a successful load leaves that result in `data_contents`. |
| Reader.DataReader.IncludeKey | lib/data_reader.rb:45-62 | The step-by-step `include_key` returns exactly `Loader.IncludeKey`. |
| Reader.DataReader.IncludeEntries | lib/data_reader.rb:48-51 | The loop over the flattened directive entries returns exactly `Loader.IncludeAll`. |
| Reader.DataReader.ExpandValues | lib/data_reader.rb:54-61 | The loop over the combined mapping's values returns exactly `Loader.IncludeKey`. |

## Left out

- File reading, ERB rendering and YAML parsing are not modelled. They are the `docs` parameter: a parsed value for each location that exists, renders and parses. Whatever fails in them is `Raised`.
- The ERB `binding` is not modelled: a template can call back into the host and change its state. Here the files and the data path are fixed for the duration of a load.
- `Pathname#absolute?` is not modelled in full: a leading `/` stands for it.
- Ruby `Hash` insertion order is not modelled: mappings are maps. For the same reason the model does not say which exception surfaces first, and all failures are one outcome.
- `data_contents` after a load that raises is not modelled: nested loads made by includes assign it, so what it holds then depends on key order.
- `Reader.DataReader.Load` does not say what nested loads leave in `data_contents` on the way, only the final value.
- `Reader.DataReader.IncludeKey` may change `data_contents` through the loads its includes make; its contract does not say what `data_contents` holds afterwards.
- `Reader.DataReader.IncludeEntries` does not say what `data_contents` holds afterwards; each entry's load assigns it.
- `Reader.DataReader.ExpandValues` does not say what `data_contents` holds afterwards; the nested expansions may load files.
- Aliasing is not modelled. `include_key` mutates the freshly parsed hash in place, and no other reference to it exists. `YAML.safe_load` refuses aliases.
- Non-string mapping keys and YAML tags are not modelled: keys are strings.
- Cyclic includes are not modelled; the code recurses until the stack overflows. Every document a load can reach, through every entry of every directive it meets, must be ranked above what it includes.
- `Loader.Acyclic` also excludes a cycle that Ruby would never enter, because the rank is demanded of every directive met, not only of those Ruby runs. Two cases:
  - an earlier failure raises first, such as a directive naming a missing file before a cyclic one;
  - the directive sits inside a literal mapping value that the included data overrides (`lib/data_reader.rb:55`), so the walk at lines 57-59 never reaches it. For example, `a.yml` = `{k: {_include_: "loop.yml"}, _include_: "b.yml"}` with `b.yml` = `{k: "x"}`: Ruby returns `{k: "x"}` without opening `loop.yml`, but `Loader.Bounded` still asks for a rank for `loop.yml`.
- `Identifiers.IsWhitespace` is not version-specific: the model strips NUL at both ends, which older Ruby versions' `lstrip` did not.
- `DataReader::VERSION` and the tests themselves are not modelled.
