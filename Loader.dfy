/** What a load computes (lib/data_reader.rb:28-62): the identifiers of a
    request are resolved and read in order, each document has its include
    directives expanded, and the documents are merged with the later one
    winning. The functions here are the specification the imperative
    `DataReader` methods are proved against. */
module Loader {

  import opened Values
  import opened Identifiers
  import opened Merging

  /** The world a load runs in. `docs` stands for the file system together with
      template rendering and parsing: it maps each location that exists, renders
      and parses to the parsed top-level value; a location outside it raises.
      `dataPath` is the value `data_path` gives. `rank` is a ghost witness that
      the include graph reachable from a load has no cycle (see `Acyclic`): the
      code itself has no cycle detection and recurses without end on a cyclic
      graph. */
  datatype Env = Env(docs: map<string, Value>, dataPath: Option<string>, rank: map<string, nat>)

  /** `[v].flatten`: a list is replaced by its elements, recursively, in order;
      anything else is a one-element list. */
  function Entries(v: Value): (es: seq<Value>)
    ensures forall i :: 0 <= i < |es| ==> !es[i].Seq?
    decreases v, 1, 0
  {
    match v
    case Seq(items) => EntriesFrom(items, 0)
    case _ => [v]
  }

  function EntriesFrom(items: seq<Value>, i: nat): (es: seq<Value>)
    requires i <= |items|
    ensures forall j :: 0 <= j < |es| ==> !es[j].Seq?
    decreases Seq(items), 0, |items| - i
  {
    if i == |items| then [] else Entries(items[i]) + EntriesFrom(items, i + 1)
  }

  /** Flattening keeps every non-list element of a list, in order, and splices
      nested lists in place. */
  lemma FlatItems(items: seq<Value>)
    requires forall i :: 0 <= i < |items| ==> !items[i].Seq?
    ensures Entries(Seq(items)) == items
  {
    FlatItemsFrom(items, 0);
  }

  lemma {:induction false} FlatItemsFrom(items: seq<Value>, i: nat)
    requires i <= |items|
    requires forall j :: 0 <= j < |items| ==> !items[j].Seq?
    ensures EntriesFrom(items, i) == items[i..]
    decreases |items| - i
  {
    if i < |items| {
      FlatItemsFrom(items, i + 1);
    }
  }

  /** Flattening a one-element list flattens its element; a non-list is its
      own flattening; an empty list flattens to nothing. */
  lemma EntriesSingleton(x: Value)
    ensures Entries(Seq([x])) == Entries(x)
    ensures !x.Seq? ==> Entries(x) == [x]
    ensures Entries(Seq([])) == []
  {
    assert EntriesFrom([x], 1) == [];
  }

  /** Flattening the concatenation of two lists concatenates their
      flattenings: nested lists are spliced in place, keeping every leaf in
      order. */
  lemma EntriesSplice(a: seq<Value>, b: seq<Value>)
    ensures Entries(Seq(a + b)) == Entries(Seq(a)) + Entries(Seq(b))
  {
    EntriesFromAppend(a, b, 0);
  }

  lemma {:induction false} EntriesFromAppend(a: seq<Value>, b: seq<Value>, i: nat)
    requires i <= |a|
    ensures EntriesFrom(a + b, i) == EntriesFrom(a, i) + EntriesFrom(b, 0)
    decreases |a| - i
  {
    if i == |a| {
      EntriesFromShift(a, b, 0);
    } else {
      assert (a + b)[i] == a[i];
      EntriesFromAppend(a, b, i + 1);
    }
  }

  lemma {:induction false} EntriesFromShift(p: seq<Value>, items: seq<Value>, i: nat)
    requires i <= |items|
    ensures EntriesFrom(p + items, |p| + i) == EntriesFrom(items, i)
    decreases |items| - i
  {
    if i < |items| {
      assert (p + items)[|p| + i] == items[i];
      EntriesFromShift(p, items, i + 1);
    }
  }

  /** The location `id` names is missing, not a mapping, or ranked below `r`. */
  ghost predicate TargetBelow(env: Env, id: string, r: nat)
  {
    var path := Resolve(id, env.dataPath);
    path in env.docs && env.docs[path].Map? ==> path in env.rank && env.rank[path] < r
  }

  ghost predicate IdsBelow(env: Env, ids: seq<string>, r: nat)
  {
    forall i :: 0 <= i < |ids| ==> TargetBelow(env, ids[i], r)
  }

  /** Every string entry of an include directive names only targets below `r`. */
  ghost predicate EntriesBelow(env: Env, es: seq<Value>, r: nat)
  {
    forall i :: 0 <= i < |es| && es[i].Str? ==> IdsBelow(env, SplitList(es[i].s), r)
  }

  /** Every include directive met by walking `v` through mapping values names
      only targets ranked below `r`. */
  ghost predicate Bounded(env: Env, v: Value, r: nat)
  {
    match v
    case Map(m) =>
      && (Directive in m ==> EntriesBelow(env, Entries(m[Directive]), r))
      && forall k :: k in m && k != Directive ==> Bounded(env, m[k], r)
    case _ => true
  }

  /** The ranked documents include only ranked documents of strictly lower
      rank, so the include graph among them has no cycle. Documents without a
      rank are unconstrained; a load may not reach them (`TargetBelow`). */
  ghost predicate Acyclic(env: Env)
  {
    forall p :: DocBounded(env, p)
  }

  /** Document `p`, when ranked, includes only documents ranked below it. */
  ghost predicate DocBounded(env: Env, p: string)
  {
    p in env.rank && p in env.docs && env.docs[p].Map? ==> Bounded(env, env.docs[p], env.rank[p])
  }

  /** A tree without include directives places no demand on ranks. */
  lemma {:induction false} FreeIsBounded(env: Env, v: Value, r: nat)
    requires DirectiveFree(v)
    ensures Bounded(env, v, r)
    decreases v
  {
    match v
    case Map(m) =>
      forall k | k in m && k != Directive
        ensures Bounded(env, m[k], r)
      {
        FreeIsBounded(env, m[k], r);
      }
    case _ =>
  }

  /** `load(file_list)` (lib/data_reader.rb:28-36), apart from storing the
      result: the documents of the request, loaded in order and folded with
      `Merge`. */
  ghost function Load(env: Env, fileList: string, b: nat): (res: Result<Doc>)
    requires Acyclic(env) && IdsBelow(env, SplitList(fileList), b)
    ensures res.Ok? ==> DirectiveFree(Map(res.value))
    ensures res.Ok? && res.value != map[] ==> b > 0
    decreases b, 2, 0
  {
    LoadFiles(env, SplitList(fileList), b)
  }

  /** The `inject` fold of `load` over a list of identifiers. */
  ghost function LoadFiles(env: Env, ids: seq<string>, b: nat): (res: Result<Doc>)
    requires Acyclic(env) && IdsBelow(env, ids, b)
    ensures res.Ok? ==> DirectiveFree(Map(res.value))
    ensures res.Ok? && res.value != map[] ==> b > 0
    decreases b, 1, |ids|
  {
    if ids == [] then Ok(map[])
    else
      var front := ids[..|ids| - 1];
      assert IdsBelow(env, front, b) by {
        forall i | 0 <= i < |front| ensures TargetBelow(env, front[i], b) {
          assert front[i] == ids[i];
        }
      }
      match LoadFiles(env, front, b)
      case Raised => Raised
      case Ok(acc) =>
        match LoadFile(env, ids[|ids| - 1], b)
        case Raised => Raised
        case Ok(d) =>
          MergeDirectiveFree(acc, d);
          Ok(Merge(acc, d))
  }

  /** One identifier: `include_key(YAML.safe_load(include_data(file)))`
      (lib/data_reader.rb:33, 38-41). A missing location raises, and so does a
      document that is not a mapping, because `include_key` calls `key?` on it. */
  ghost function LoadFile(env: Env, id: string, b: nat): (res: Result<Doc>)
    requires Acyclic(env) && TargetBelow(env, id, b)
    ensures res.Ok? ==> DirectiveFree(Map(res.value)) && b > 0
    decreases b, 0, 0
  {
    var path := Resolve(id, env.dataPath);
    if path !in env.docs then Raised
    else
      match env.docs[path]
      case Map(m) =>
        assert DocBounded(env, path);
        IncludeKey(env, m, env.rank[path])
      case _ => Raised
  }

  /** The include loop of `include_key` (lib/data_reader.rb:49-51): each
      flattened entry, in order, is loaded as a whole request and merged over
      what the entries before it gave. An entry that is not a string raises
      (it has no `include?`/`strip`). */
  ghost function IncludeAll(env: Env, es: seq<Value>, r: nat): (res: Result<Doc>)
    requires Acyclic(env) && EntriesBelow(env, es, r)
    ensures res.Ok? ==> DirectiveFree(Map(res.value))
    ensures res.Ok? && res.value != map[] ==> r > 0
    decreases r, 4, |es|
  {
    if es == [] then Ok(map[])
    else
      var front := es[..|es| - 1];
      assert EntriesBelow(env, front, r) by {
        forall i | 0 <= i < |front| && front[i].Str? ensures IdsBelow(env, SplitList(front[i].s), r) {
          assert front[i] == es[i];
        }
      }
      match IncludeAll(env, front, r)
      case Raised => Raised
      case Ok(acc) =>
        var e := es[|es| - 1];
        if !e.Str? then Raised
        else
          match Load(env, e.s, r)
          case Raised => Raised
          case Ok(d) =>
            MergeDirectiveFree(acc, d);
            Ok(Merge(acc, d))
  }

  /** The data the directive of `m` brings in; nothing when it has none. */
  ghost function Included(env: Env, m: Doc, r: nat): (res: Result<Doc>)
    requires Acyclic(env) && Bounded(env, Map(m), r)
    ensures res.Ok? ==> DirectiveFree(Map(res.value))
    ensures res.Ok? && res.value != map[] ==> r > 0
    decreases r, 5, Map(m), 0
  {
    if Directive in m then IncludeAll(env, Entries(m[Directive]), r) else Ok(map[])
  }

  /** The literal keys of `m` without the directive, with the included data
      merged over them (lib/data_reader.rb:54-55). */
  function Combined(m: Doc, inc: Doc): Doc
  {
    Merge(m - {Directive}, inc)
  }

  /** `include_key(data)` (lib/data_reader.rb:45-62): the included data is
      merged over the literal keys, and then every value that is a mapping is
      expanded in turn. */
  ghost function IncludeKey(env: Env, m: Doc, r: nat): (res: Result<Doc>)
    requires Acyclic(env) && Bounded(env, Map(m), r)
    ensures res.Ok? ==> DirectiveFree(Map(res.value))
    decreases r, 5, Map(m), 1
  {
    match Included(env, m, r)
    case Raised => Raised
    case Ok(inc) =>
      var c := Combined(m, inc);
      if forall k :: k in c ==> Child(env, m, inc, k, r).Ok? then
        var res := map k | k in c :: Child(env, m, inc, k, r).value;
        assert DirectiveFree(Map(res)) by {
          forall k | k in res ensures DirectiveFree(res[k]) {
            assert res[k] == Child(env, m, inc, k, r).value;
          }
        }
        Ok(res)
      else
        Raised
  }

  /** The rank bound under which the value at key `k` of `Combined(m, inc)` is
      expanded. Included values come from documents ranked below `r` and hold no
      directive. */
  function ChildBound(inc: Doc, k: string, r: nat): nat
  {
    if k in inc && r > 0 then r - 1 else r
  }

  /** The loop body of lib/data_reader.rb:57-59 for key `k`: a mapping value
      is expanded, any other value is kept as it is. */
  ghost function Child(env: Env, m: Doc, inc: Doc, k: string, r: nat): (res: Result<Value>)
    requires Acyclic(env) && Bounded(env, Map(m), r)
    requires DirectiveFree(Map(inc)) && (inc != map[] ==> r > 0)
    requires k in Combined(m, inc)
    ensures res.Ok? ==> DirectiveFree(res.value)
    decreases r, 5, Map(m), 0
  {
    var v := Combined(m, inc)[k];
    assert Bounded(env, v, ChildBound(inc, k, r)) && (k !in inc ==> v == m[k]) by {
      if k in inc { FreeIsBounded(env, v, r - 1); }
    }
    match v
    case Map(child) =>
      (match IncludeKey(env, child, ChildBound(inc, k, r))
       case Raised => Raised
       case Ok(d) => Ok(Map(d)))
    case _ => Ok(v)
  }

  /** Once a prefix of the identifiers raises, the whole list raises. */
  lemma {:induction false} LoadFilesPrefixRaises(env: Env, ids: seq<string>, j: nat, b: nat)
    requires Acyclic(env) && IdsBelow(env, ids, b) && j <= |ids|
    requires IdsBelow(env, ids[..j], b) && LoadFiles(env, ids[..j], b).Raised?
    ensures LoadFiles(env, ids, b).Raised?
    decreases |ids|
  {
    if j < |ids| {
      var front := ids[..|ids| - 1];
      assert front[..j] == ids[..j];
      assert IdsBelow(env, front, b) by {
        forall i | 0 <= i < |front| ensures TargetBelow(env, front[i], b) {
          assert front[i] == ids[i];
        }
      }
      LoadFilesPrefixRaises(env, front, j, b);
    } else {
      assert ids[..j] == ids;
    }
  }

  /** Once a prefix of the entries raises, all the entries raise. */
  lemma {:induction false} IncludeAllPrefixRaises(env: Env, es: seq<Value>, j: nat, r: nat)
    requires Acyclic(env) && EntriesBelow(env, es, r) && j <= |es|
    requires EntriesBelow(env, es[..j], r) && IncludeAll(env, es[..j], r).Raised?
    ensures IncludeAll(env, es, r).Raised?
    decreases |es|
  {
    if j < |es| {
      var front := es[..|es| - 1];
      assert front[..j] == es[..j];
      assert EntriesBelow(env, front, r) by {
        forall i | 0 <= i < |front| && front[i].Str? ensures IdsBelow(env, SplitList(front[i].s), r) {
          assert front[i] == es[i];
        }
      }
      IncludeAllPrefixRaises(env, front, j, r);
    } else {
      assert es[..j] == es;
    }
  }

  lemma EntriesBelowPrefix(env: Env, es: seq<Value>, j: nat, r: nat)
    requires EntriesBelow(env, es, r) && j <= |es|
    ensures EntriesBelow(env, es[..j], r)
  {
    forall i | 0 <= i < j && es[..j][i].Str? ensures IdsBelow(env, SplitList(es[..j][i].s), r) {
      assert es[..j][i] == es[i];
    }
  }

  lemma IdsBelowPrefix(env: Env, ids: seq<string>, j: nat, r: nat)
    requires IdsBelow(env, ids, r) && j <= |ids|
    ensures IdsBelow(env, ids[..j], r)
  {
    forall i | 0 <= i < j ensures TargetBelow(env, ids[..j][i], r) {
      assert ids[..j][i] == ids[i];
    }
  }

  /** One more identifier that loads extends the fold by one merge. */
  lemma LoadFilesStep(env: Env, ids: seq<string>, i: nat, b: nat, acc: Doc)
    requires Acyclic(env) && IdsBelow(env, ids, b) && i < |ids|
    requires IdsBelow(env, ids[..i], b) && LoadFiles(env, ids[..i], b) == Ok(acc)
    ensures IdsBelow(env, ids[..i + 1], b)
    ensures LoadFile(env, ids[i], b).Ok? ==>
              LoadFiles(env, ids[..i + 1], b) == Ok(Merge(acc, LoadFile(env, ids[i], b).value))
    ensures LoadFile(env, ids[i], b).Raised? ==> LoadFiles(env, ids, b).Raised?
    ensures var path := Resolve(ids[i], env.dataPath);
            if path in env.docs && env.docs[path].Map? then
              && path in env.rank && env.rank[path] < b
              && Bounded(env, env.docs[path], env.rank[path])
              && LoadFile(env, ids[i], b) == IncludeKey(env, env.docs[path].entries, env.rank[path])
            else
              LoadFile(env, ids[i], b).Raised?
  {
    assert TargetBelow(env, ids[i], b) && DocBounded(env, Resolve(ids[i], env.dataPath));
    IdsBelowPrefix(env, ids, i + 1, b);
    assert ids[..i + 1][..i] == ids[..i];
    if LoadFile(env, ids[i], b).Raised? {
      LoadFilesPrefixRaises(env, ids, i + 1, b);
    }
  }

  /** One more entry that loads extends the include accumulator by one merge;
      one that is not a string or raises makes the whole directive raise. */
  lemma IncludeAllStep(env: Env, es: seq<Value>, i: nat, r: nat, acc: Doc)
    requires Acyclic(env) && EntriesBelow(env, es, r) && i < |es|
    requires EntriesBelow(env, es[..i], r) && IncludeAll(env, es[..i], r) == Ok(acc)
    ensures EntriesBelow(env, es[..i + 1], r)
    ensures es[i].Str? ==> IdsBelow(env, SplitList(es[i].s), r)
    ensures es[i].Str? && Load(env, es[i].s, r).Ok? ==>
              IncludeAll(env, es[..i + 1], r) == Ok(Merge(acc, Load(env, es[i].s, r).value))
    ensures !es[i].Str? || Load(env, es[i].s, r).Raised? ==> IncludeAll(env, es, r).Raised?
  {
    EntriesBelowPrefix(env, es, i + 1, r);
    assert es[..i + 1][..i] == es[..i];
    if !es[i].Str? || Load(env, es[i].s, r).Raised? {
      IncludeAllPrefixRaises(env, es, i + 1, r);
    }
  }

  /** What expanding the value at key `k` of the combined mapping takes: the
      expansion of that value under `ChildBound` when it is a mapping, the value
      itself otherwise. */
  lemma ChildStep(env: Env, m: Doc, inc: Doc, k: string, r: nat)
    requires Acyclic(env) && Bounded(env, Map(m), r) && Included(env, m, r) == Ok(inc)
    requires k in Combined(m, inc)
    ensures DirectiveFree(Map(inc)) && (inc != map[] ==> r > 0)
    ensures var v := Combined(m, inc)[k];
            && (k !in inc ==> k in m && v == m[k])
            && (v.Map? ==> Bounded(env, v, ChildBound(inc, k, r)))
            && (v.Map? && IncludeKey(env, v.entries, ChildBound(inc, k, r)).Raised?
                ==> Child(env, m, inc, k, r) == Raised)
            && (v.Map? && IncludeKey(env, v.entries, ChildBound(inc, k, r)).Ok?
                ==> Child(env, m, inc, k, r) == Ok(Map(IncludeKey(env, v.entries, ChildBound(inc, k, r)).value)))
            && (!v.Map? ==> Child(env, m, inc, k, r) == Ok(v))
  {
    var v := Combined(m, inc)[k];
    if k in inc {
      FreeIsBounded(env, v, r - 1);
    }
  }

  /** Midway through the walk over the combined mapping of `m`: the keys in
      `pending` still hold their combined values, the others their expansions. */
  ghost predicate Expanding(env: Env, m: Doc, inc: Doc, r: nat, current: Doc, pending: set<string>)
    requires Acyclic(env) && Bounded(env, Map(m), r) && Included(env, m, r) == Ok(inc)
  {
    && pending <= current.Keys
    && current.Keys == Combined(m, inc).Keys
    && (forall k :: k in pending ==> current[k] == Combined(m, inc)[k])
    && (forall k :: k in current && k !in pending ==> Child(env, m, inc, k, r) == Ok(current[k]))
  }

  /** One step of the walk: the value at `key` is replaced by its expansion
      `res` when it is a mapping, and kept otherwise; a raising expansion makes
      the whole expansion raise. */
  lemma ExpandStep(env: Env, m: Doc, inc: Doc, r: nat, current: Doc, pending: set<string>,
                   key: string, res: Result<Doc>)
    requires Acyclic(env) && Bounded(env, Map(m), r) && Included(env, m, r) == Ok(inc)
    requires Expanding(env, m, inc, r, current, pending) && key in pending
    requires current[key].Map? ==> Bounded(env, current[key], ChildBound(inc, key, r))
    requires current[key].Map? ==> res == IncludeKey(env, current[key].entries, ChildBound(inc, key, r))
    ensures current[key].Map? && res.Raised? ==> IncludeKey(env, m, r).Raised?
    ensures current[key].Map? && res.Ok? ==>
              Expanding(env, m, inc, r, current[key := Map(res.value)], pending - {key})
    ensures !current[key].Map? ==> Expanding(env, m, inc, r, current, pending - {key})
  {
    ChildStep(env, m, inc, key, r);
  }

  /** The expansion is the combined mapping with every value expanded, once
      the walk is over. */
  lemma IncludeKeyFromChildren(env: Env, m: Doc, inc: Doc, r: nat, res: Doc)
    requires Acyclic(env) && Bounded(env, Map(m), r) && Included(env, m, r) == Ok(inc)
    requires Expanding(env, m, inc, r, res, {})
    ensures IncludeKey(env, m, r) == Ok(res)
  {
    assert res == map k | k in Combined(m, inc) :: Child(env, m, inc, k, r).value;
  }
}
