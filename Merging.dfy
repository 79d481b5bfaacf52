/** The shallow, last-write-wins merge of mappings (Ruby's `Hash#merge!`) and
    the fold of it over a list of documents. */
module Merging {

  import opened Values

  /** `base.merge!(over)`: every key of either side; on a shared key the value
      of `over` replaces that of `base` entirely. */
  function Merge(base: Doc, over: Doc): (r: Doc)
    ensures r.Keys == base.Keys + over.Keys
    ensures forall k :: k in over ==> r[k] == over[k]
    ensures forall k :: k in base && k !in over ==> r[k] == base[k]
  {
    base + over
  }

  /** The left fold of `Merge` over `docs`, in order, starting from `{}`. */
  function FoldMerge(docs: seq<Doc>): Doc
  {
    if docs == [] then map[] else Merge(FoldMerge(docs[..|docs| - 1]), docs[|docs| - 1])
  }

  /** The index of the last document of `docs` that holds key `k`. */
  ghost predicate LastHolder(docs: seq<Doc>, k: string, i: int)
  {
    0 <= i < |docs| && k in docs[i] && forall j :: i < j < |docs| ==> k !in docs[j]
  }

  /** The folded mapping has the keys of all documents, and each key's value
      is the one of the last document holding it. */
  lemma {:induction false} FoldMergeLastWriteWins(docs: seq<Doc>, k: string)
    ensures k in FoldMerge(docs) <==> exists i :: 0 <= i < |docs| && k in docs[i]
    ensures forall i :: LastHolder(docs, k, i) ==> FoldMerge(docs)[k] == docs[i][k]
  {
    if docs != [] {
      var front := docs[..|docs| - 1];
      FoldMergeLastWriteWins(front, k);
      forall i | LastHolder(docs, k, i)
        ensures FoldMerge(docs)[k] == docs[i][k]
      {
        if i < |docs| - 1 {
          assert LastHolder(front, k, i);
        }
      }
      if k in FoldMerge(docs) && k !in docs[|docs| - 1] {
        var i :| 0 <= i < |front| && k in front[i];
        assert k in docs[i];
      }
      if exists i :: 0 <= i < |docs| && k in docs[i] {
        var i :| 0 <= i < |docs| && k in docs[i];
        if i < |docs| - 1 {
          assert k in front[i];
        }
      }
    }
  }

  /** Folding one more document merges it over the fold of the others. */
  lemma FoldMergeSnoc(docs: seq<Doc>, d: Doc)
    ensures FoldMerge(docs + [d]) == Merge(FoldMerge(docs), d)
  {
    assert (docs + [d])[..|docs|] == docs;
  }

  /** Folding two documents merges the second over the first. */
  lemma FoldMergeTwo(first: Doc, second: Doc)
    ensures FoldMerge([first, second]) == Merge(first, second)
  {
    assert [first, second][..1] == [first] && [first][..0] == [];
    assert FoldMerge([first]) == Merge(map[], first) == first;
  }

  /** Merging mappings without the include directive anywhere inside gives
      one without it too. */
  lemma MergeDirectiveFree(base: Doc, over: Doc)
    requires DirectiveFree(Map(base)) && DirectiveFree(Map(over))
    ensures DirectiveFree(Map(Merge(base, over)))
  {
    var r := Merge(base, over);
    forall k | k in r
      ensures DirectiveFree(r[k])
    {
      if k in over {
        assert DirectiveFree(over[k]);
      } else {
        assert DirectiveFree(base[k]);
      }
    }
  }
}
