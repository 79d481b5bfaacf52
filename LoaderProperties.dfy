/** Properties of loading and include expansion, proved about the functions of
    module Loader. */
module LoaderProperties {

  import opened Values
  import opened Identifiers
  import opened Merging
  import opened Loader

  /** Expanding a tree that holds no directive anywhere along its mappings
      gives that tree back unchanged. */
  lemma {:induction false} IncludeKeyIdentity(env: Env, m: Doc, r: nat)
    requires Acyclic(env) && DirectiveFree(Map(m))
    ensures Bounded(env, Map(m), r) && IncludeKey(env, m, r) == Ok(m)
    decreases Map(m)
  {
    FreeIsBounded(env, Map(m), r);
    assert Included(env, m, r) == Ok(map[]);
    var c := Combined(m, map[]);
    assert c == m;
    forall k | k in c
      ensures Child(env, m, map[], k, r) == Ok(m[k])
    {
      if m[k].Map? {
        IncludeKeyIdentity(env, m[k].entries, r);
      }
    }
    var res := map k | k in c :: Child(env, m, map[], k, r).value;
    assert res == m;
  }

  /** Expanding the result of an expansion a second time changes nothing. */
  lemma IncludeKeyIdempotent(env: Env, m: Doc, r: nat, r2: nat)
    requires Acyclic(env) && Bounded(env, Map(m), r)
    requires IncludeKey(env, m, r).Ok?
    ensures Bounded(env, Map(IncludeKey(env, m, r).value), r2)
    ensures IncludeKey(env, IncludeKey(env, m, r).value, r2) == IncludeKey(env, m, r)
  {
    IncludeKeyIdentity(env, IncludeKey(env, m, r).value, r2);
  }

  /** The shape of an expanded mapping: its keys are the literal keys without
      the directive together with the keys of the included data; an included
      key carries the included value (it overrides the literal one); any other
      key keeps its literal value if that is not a mapping, and otherwise the
      expansion of that mapping. */
  lemma IncludeKeyShape(env: Env, m: Doc, r: nat)
    requires Acyclic(env) && Bounded(env, Map(m), r)
    requires IncludeKey(env, m, r).Ok?
    ensures Included(env, m, r).Ok?
    ensures var inc := Included(env, m, r).value;
            var res := IncludeKey(env, m, r).value;
            && res.Keys == (m.Keys - {Directive}) + inc.Keys
            && Directive !in res
            && (forall k :: k in inc ==> res[k] == inc[k])
            && (forall k :: k in m && k != Directive && k !in inc && !m[k].Map? ==> res[k] == m[k])
            && (forall k :: k in m && k != Directive && k !in inc && m[k].Map? ==>
                  && IncludeKey(env, m[k].entries, r).Ok?
                  && res[k] == Map(IncludeKey(env, m[k].entries, r).value))
  {
    var inc := Included(env, m, r).value;
    var res := IncludeKey(env, m, r).value;
    var c := Combined(m, inc);
    forall k | k in inc
      ensures res[k] == inc[k]
    {
      assert res[k] == Child(env, m, inc, k, r).value;
      if inc[k].Map? {
        assert DirectiveFree(inc[k]);
        IncludeKeyIdentity(env, inc[k].entries, r - 1);
      }
    }
    forall k | k in m && k != Directive && k !in inc
      ensures res[k] == Child(env, m, inc, k, r).value
    {
      assert k in c;
    }
  }

  /** An expansion raises exactly when loading the included data raises or
      the expansion of a literal mapping value that the included data does not
      override raises; included values never make it raise. */
  lemma IncludeKeyRaises(env: Env, m: Doc, r: nat)
    requires Acyclic(env) && Bounded(env, Map(m), r)
    ensures IncludeKey(env, m, r).Raised? <==>
              || Included(env, m, r).Raised?
              || exists k :: && k in m && k != Directive && k !in Included(env, m, r).value
                             && m[k].Map? && IncludeKey(env, m[k].entries, r).Raised?
  {
    var included := Included(env, m, r);
    if included.Ok? {
      var inc := included.value;
      var c := Combined(m, inc);
      forall k | k in inc
        ensures Child(env, m, inc, k, r).Ok?
      {
        if inc[k].Map? {
          assert DirectiveFree(inc[k]);
          IncludeKeyIdentity(env, inc[k].entries, r - 1);
        }
      }
      if IncludeKey(env, m, r).Raised? {
        var k :| k in c && !Child(env, m, inc, k, r).Ok?;
        assert k in m && k != Directive && k !in inc;
      }
      if exists k :: && k in m && k != Directive && k !in inc
                     && m[k].Map? && IncludeKey(env, m[k].entries, r).Raised? {
        var k :| && k in m && k != Directive && k !in inc
                 && m[k].Map? && IncludeKey(env, m[k].entries, r).Raised?;
        assert k in c && !Child(env, m, inc, k, r).Ok?;
      }
    }
  }

  /** The documents each identifier of `ids` loads to, in order. */
  ghost function LoadedDocs(env: Env, ids: seq<string>, b: nat): (ds: seq<Doc>)
    requires Acyclic(env) && IdsBelow(env, ids, b)
    requires forall i :: 0 <= i < |ids| ==> LoadFile(env, ids[i], b).Ok?
    ensures |ds| == |ids|
    ensures forall i :: 0 <= i < |ids| ==> ds[i] == LoadFile(env, ids[i], b).value
    decreases |ids|
  {
    if ids == [] then []
    else
      var front := ids[..|ids| - 1];
      assert IdsBelow(env, front, b) && forall i :: 0 <= i < |front| ==> front[i] == ids[i];
      LoadedDocs(env, front, b) + [LoadFile(env, ids[|ids| - 1], b).value]
  }

  /** Loading a list of identifiers succeeds exactly when every identifier
      loads, and then gives the left fold of last-write-wins merges of their
      documents, in list order, starting from the empty mapping. */
  lemma {:induction false} LoadFilesIsFold(env: Env, ids: seq<string>, b: nat)
    requires Acyclic(env) && IdsBelow(env, ids, b)
    ensures LoadFiles(env, ids, b).Ok? <==> forall i :: 0 <= i < |ids| ==> LoadFile(env, ids[i], b).Ok?
    ensures LoadFiles(env, ids, b).Ok? ==> LoadFiles(env, ids, b).value == FoldMerge(LoadedDocs(env, ids, b))
    decreases |ids|
  {
    if ids != [] {
      var front := ids[..|ids| - 1];
      LoadFilesLast(env, ids, b);
      LoadFilesIsFold(env, front, b);
      if LoadFiles(env, ids, b).Ok? {
        LoadedDocsLast(env, ids, b);
        FoldMergeSnoc(LoadedDocs(env, front, b), LoadFile(env, ids[|ids| - 1], b).value);
      }
    }
  }

  /** The last identifier's document is merged over what the others gave. */
  lemma LoadFilesLast(env: Env, ids: seq<string>, b: nat)
    requires Acyclic(env) && IdsBelow(env, ids, b) && ids != []
    ensures IdsBelow(env, ids[..|ids| - 1], b)
    ensures forall i :: 0 <= i < |ids| - 1 ==> ids[..|ids| - 1][i] == ids[i]
    ensures TargetBelow(env, ids[|ids| - 1], b)
    ensures LoadFiles(env, ids, b).Ok? <==>
              LoadFiles(env, ids[..|ids| - 1], b).Ok? && LoadFile(env, ids[|ids| - 1], b).Ok?
    ensures LoadFiles(env, ids, b).Ok? ==>
              LoadFiles(env, ids, b).value
              == Merge(LoadFiles(env, ids[..|ids| - 1], b).value, LoadFile(env, ids[|ids| - 1], b).value)
  {
    IdsBelowPrefix(env, ids, |ids| - 1, b);
  }

  lemma LoadedDocsLast(env: Env, ids: seq<string>, b: nat)
    requires Acyclic(env) && IdsBelow(env, ids, b) && ids != []
    requires forall i :: 0 <= i < |ids| ==> LoadFile(env, ids[i], b).Ok?
    ensures IdsBelow(env, ids[..|ids| - 1], b)
    ensures forall i :: 0 <= i < |ids| - 1 ==> ids[..|ids| - 1][i] == ids[i]
    ensures LoadedDocs(env, ids, b) == LoadedDocs(env, ids[..|ids| - 1], b) + [LoadFile(env, ids[|ids| - 1], b).value]
  {
    IdsBelowPrefix(env, ids, |ids| - 1, b);
  }

  /** For a successful load, a key is in the result exactly when some document
      of the request has it, and its value is the one of the last such
      document: a later file replaces an earlier file's value entirely. */
  lemma LoadLastWriteWins(env: Env, fileList: string, b: nat, k: string)
    requires Acyclic(env) && IdsBelow(env, SplitList(fileList), b)
    requires Load(env, fileList, b).Ok?
    ensures forall i :: 0 <= i < |SplitList(fileList)| ==> LoadFile(env, SplitList(fileList)[i], b).Ok?
    ensures var ds := LoadedDocs(env, SplitList(fileList), b);
            var res := Load(env, fileList, b).value;
            && (k in res <==> exists i :: 0 <= i < |ds| && k in ds[i])
            && forall i :: LastHolder(ds, k, i) ==> res[k] == ds[i][k]
  {
    LoadFilesIsFold(env, SplitList(fileList), b);
    FoldMergeLastWriteWins(LoadedDocs(env, SplitList(fileList), b), k);
  }

  /** The documents each entry of an include directive loads to, in order. */
  ghost function IncludedDocs(env: Env, es: seq<Value>, r: nat): (ds: seq<Doc>)
    requires Acyclic(env) && EntriesBelow(env, es, r)
    requires forall i :: 0 <= i < |es| ==> es[i].Str? && Load(env, es[i].s, r).Ok?
    ensures |ds| == |es|
    ensures forall i :: 0 <= i < |es| ==> ds[i] == Load(env, es[i].s, r).value
    decreases |es|
  {
    if es == [] then []
    else
      var front := es[..|es| - 1];
      EntriesBelowPrefix(env, es, |es| - 1, r);
      assert forall i :: 0 <= i < |front| ==> front[i] == es[i];
      IncludedDocs(env, front, r) + [Load(env, es[|es| - 1].s, r).value]
  }

  /** The entries of an include directive are loaded in order: the result is
      Ok exactly when every entry is a string whose request loads, and then it
      is the left fold of last-write-wins merges of their loads, from `{}`. */
  lemma {:induction false} IncludeAllIsFold(env: Env, es: seq<Value>, r: nat)
    requires Acyclic(env) && EntriesBelow(env, es, r)
    ensures IncludeAll(env, es, r).Ok? <==>
              forall i :: 0 <= i < |es| ==> es[i].Str? && Load(env, es[i].s, r).Ok?
    ensures IncludeAll(env, es, r).Ok? ==> IncludeAll(env, es, r).value == FoldMerge(IncludedDocs(env, es, r))
    decreases |es|
  {
    if es != [] {
      var front := es[..|es| - 1];
      IncludeAllLast(env, es, r);
      IncludeAllIsFold(env, front, r);
      if IncludeAll(env, es, r).Ok? {
        IncludedDocsLast(env, es, r);
        FoldMergeSnoc(IncludedDocs(env, front, r), Load(env, es[|es| - 1].s, r).value);
      }
    }
  }

  /** The last entry of a directive is merged over what the others gave. */
  lemma IncludeAllLast(env: Env, es: seq<Value>, r: nat)
    requires Acyclic(env) && EntriesBelow(env, es, r) && es != []
    ensures EntriesBelow(env, es[..|es| - 1], r)
    ensures forall i :: 0 <= i < |es| - 1 ==> es[..|es| - 1][i] == es[i]
    ensures es[|es| - 1].Str? ==> IdsBelow(env, SplitList(es[|es| - 1].s), r)
    ensures IncludeAll(env, es, r).Ok? <==>
              && IncludeAll(env, es[..|es| - 1], r).Ok?
              && es[|es| - 1].Str? && Load(env, es[|es| - 1].s, r).Ok?
    ensures IncludeAll(env, es, r).Ok? ==>
              IncludeAll(env, es, r).value
              == Merge(IncludeAll(env, es[..|es| - 1], r).value, Load(env, es[|es| - 1].s, r).value)
  {
    EntriesBelowPrefix(env, es, |es| - 1, r);
  }

  lemma IncludedDocsLast(env: Env, es: seq<Value>, r: nat)
    requires Acyclic(env) && EntriesBelow(env, es, r) && es != []
    requires forall i :: 0 <= i < |es| ==> es[i].Str? && Load(env, es[i].s, r).Ok?
    ensures EntriesBelow(env, es[..|es| - 1], r)
    ensures forall i :: 0 <= i < |es| - 1 ==> es[..|es| - 1][i] == es[i]
    ensures IncludedDocs(env, es, r)
            == IncludedDocs(env, es[..|es| - 1], r) + [Load(env, es[|es| - 1].s, r).value]
  {
    EntriesBelowPrefix(env, es, |es| - 1, r);
  }

  /** Within one include directive a later entry wins: a key is included
      exactly when some entry's load has it, with the value of the last entry
      whose load has it. */
  lemma IncludeLastWriteWins(env: Env, es: seq<Value>, r: nat, k: string)
    requires Acyclic(env) && EntriesBelow(env, es, r)
    requires IncludeAll(env, es, r).Ok?
    ensures forall i :: 0 <= i < |es| ==> es[i].Str? && Load(env, es[i].s, r).Ok?
    ensures var ds := IncludedDocs(env, es, r);
            var inc := IncludeAll(env, es, r).value;
            && (k in inc <==> exists i :: 0 <= i < |ds| && k in ds[i])
            && forall i :: LastHolder(ds, k, i) ==> inc[k] == ds[i][k]
  {
    IncludeAllIsFold(env, es, r);
    FoldMergeLastWriteWins(IncludedDocs(env, es, r), k);
  }

  /** A document that exists, is a mapping and holds no directive. */
  ghost predicate PlainDoc(env: Env, id: string)
  {
    var path := Resolve(id, env.dataPath);
    path in env.docs && env.docs[path].Map? && DirectiveFree(env.docs[path])
  }

  /** The parsed mappings of plain documents, in order. */
  ghost function ParsedDocs(env: Env, ids: seq<string>): (ds: seq<Doc>)
    requires forall i :: 0 <= i < |ids| ==> PlainDoc(env, ids[i])
    ensures |ds| == |ids|
    decreases |ids|
  {
    if ids == [] then []
    else
      var front := ids[..|ids| - 1];
      assert forall i :: 0 <= i < |front| ==> front[i] == ids[i];
      assert PlainDoc(env, ids[|ids| - 1]);
      ParsedDocs(env, front) + [env.docs[Resolve(ids[|ids| - 1], env.dataPath)].entries]
  }

  /** Without include directives, loading a list gives the last-write-wins
      fold of the parsed documents themselves. */
  lemma {:induction false} LoadPlainFiles(env: Env, ids: seq<string>, b: nat)
    requires Acyclic(env) && IdsBelow(env, ids, b)
    requires forall i :: 0 <= i < |ids| ==> PlainDoc(env, ids[i])
    ensures LoadFiles(env, ids, b) == Ok(FoldMerge(ParsedDocs(env, ids)))
    decreases |ids|
  {
    if ids != [] {
      var front := ids[..|ids| - 1];
      assert IdsBelow(env, front, b) && forall i :: 0 <= i < |front| ==> front[i] == ids[i];
      LoadPlainFiles(env, front, b);
      var last := ids[|ids| - 1];
      var path := Resolve(last, env.dataPath);
      assert TargetBelow(env, last, b);
      IncludeKeyIdentity(env, env.docs[path].entries, env.rank[path]);
      var ds := ParsedDocs(env, ids);
      assert ds[..|ds| - 1] == ParsedDocs(env, front);
    }
  }

  /** A request naming a location that does not exist raises: a missing file
      is not skipped. */
  lemma MissingDocumentRaises(env: Env, fileList: string, b: nat, i: nat)
    requires Acyclic(env) && IdsBelow(env, SplitList(fileList), b)
    requires i < |SplitList(fileList)| && Resolve(SplitList(fileList)[i], env.dataPath) !in env.docs
    ensures Load(env, fileList, b).Raised?
  {
    LoadFilesIsFold(env, SplitList(fileList), b);
  }

  /** Two plain files load to the fold of their parsed contents. */
  lemma TwoFilesPlainLoad(env: Env, first: string, second: string)
    requires Acyclic(env) && IdsBelow(env, [first, second], 1)
    requires PlainDoc(env, first) && PlainDoc(env, second)
    ensures LoadFiles(env, [first, second], 1) == Ok(FoldMerge(ParsedDocs(env, [first, second])))
  {
    var ids := [first, second];
    assert forall i :: 0 <= i < |ids| ==> PlainDoc(env, ids[i]);
    LoadPlainFiles(env, ids, 1);
  }

  lemma TwoFilesParsed(env: Env, first: string, second: string)
    requires PlainDoc(env, first) && PlainDoc(env, second)
    requires env.docs[Resolve(first, env.dataPath)] == Map(map["x" := Atom("1")])
    requires env.docs[Resolve(second, env.dataPath)] == Map(map["x" := Atom("2"), "y" := Atom("3")])
    ensures ParsedDocs(env, [first, second]) == [map["x" := Atom("1")], map["x" := Atom("2"), "y" := Atom("3")]]
  {
    var ids := [first, second];
    assert ids[..1] == [first] && ids[..1][..0] == [];
  }

  lemma TwoFilesMerged()
    ensures Merge(map["x" := Atom("1")], map["x" := Atom("2"), "y" := Atom("3")]) == map["x" := Atom("2"), "y" := Atom("3")]
  {
  }

  /** Loading a file holding `{x: 1}` and then one holding `{x: 2, y: 3}`:
      the later value of `x` wins and both files contribute their keys. */
  lemma TwoFilesExample(env: Env, first: string, second: string)
    requires Acyclic(env) && IdsBelow(env, [first, second], 1)
    requires PlainDoc(env, first) && PlainDoc(env, second)
    requires env.docs[Resolve(first, env.dataPath)] == Map(map["x" := Atom("1")])
    requires env.docs[Resolve(second, env.dataPath)] == Map(map["x" := Atom("2"), "y" := Atom("3")])
    ensures LoadFiles(env, [first, second], 1) == Ok(map["x" := Atom("2"), "y" := Atom("3")])
  {
    TwoFilesPlainLoad(env, first, second);
    TwoFilesParsed(env, first, second);
    FoldMergeTwo(map["x" := Atom("1")], map["x" := Atom("2"), "y" := Atom("3")]);
    TwoFilesMerged();
  }

  /** `a.yml` holds `{x: "1"}`; `loop.yml` includes itself, and has no rank. */
  function CycleAside(): Env
  {
    Env(map["/d/a.yml" := Map(map["x" := Str("1")]),
            "/d/loop.yml" := Map(map[Directive := Str("loop.yml")])],
        Some("/d"), map["/d/a.yml" := 0])
  }

  /** A cyclic document that the request never reaches does not stop the
      load from being modelled: only ranked documents must be acyclic. */
  lemma CycleAsideCovered()
    ensures Acyclic(CycleAside()) && IdsBelow(CycleAside(), ["a.yml"], 1) && PlainDoc(CycleAside(), "a.yml")
  {
    var env := CycleAside();
    assert Resolve("a.yml", Some("/d")) == "/d/a.yml";
    assert DirectiveFree(env.docs["/d/a.yml"]);
    FreeIsBounded(env, env.docs["/d/a.yml"], 0);
    forall p ensures DocBounded(env, p) {
    }
  }

  /** Loading `a.yml` beside the cycle gives `{x: "1"}`. */
  lemma CycleAsideLoads()
    ensures Acyclic(CycleAside()) && IdsBelow(CycleAside(), ["a.yml"], 1)
    ensures LoadFiles(CycleAside(), ["a.yml"], 1) == Ok(map["x" := Str("1")])
  {
    var env := CycleAside();
    CycleAsideCovered();
    LoadPlainFiles(env, ["a.yml"], 1);
    assert Resolve("a.yml", Some("/d")) == "/d/a.yml";
    var d := map["x" := Str("1")];
    assert ParsedDocs(env, ["a.yml"]) == [d] by {
      assert ["a.yml"][..0] == [];
    }
    assert FoldMerge([d]) == Merge(map[], d) == d by {
      assert [d][..0] == [];
    }
  }
}
