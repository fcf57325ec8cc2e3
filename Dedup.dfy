/** The duplicate-skipping walk of the search formatter over the documents
    after the first one: a document survives when its path differs from the
    main document's path and from every path that survived before it. */
module Dedup {
  import opened Citation

  /** The paths of a list of documents, in order. */
  function Sources(docs: seq<Doc>): (s: seq<string>)
    ensures |s| == |docs|
    ensures forall i :: 0 <= i < |docs| ==> s[i] == docs[i].source
  {
    seq(|docs|, i requires 0 <= i < |docs| => docs[i].source)
  }

  lemma SourcesHas(docs: seq<Doc>, i: nat)
    requires i < |docs|
    ensures docs[i].source in Sources(docs)
  {
  }

  /** The position of the first occurrence of x in xs. */
  function IndexOf(xs: seq<string>, x: string): (k: nat)
    requires x in xs
    ensures k < |xs| && xs[k] == x
    ensures forall i :: 0 <= i < k ==> xs[i] != x
    decreases |xs|
  {
    var init := xs[..|xs| - 1];
    assert xs == init + [xs[|xs| - 1]];
    if x in init then IndexOf(init, x) else |xs| - 1
  }

  /** The documents that survive the walk over docs, in the order they are
      appended; defined on the last step so that it matches a loop that has
      processed a prefix. */
  function Kept(main: string, docs: seq<Doc>): seq<Doc>
    decreases |docs|
  {
    if docs == [] then []
    else
      var kept := Kept(main, docs[..|docs| - 1]);
      var d := docs[|docs| - 1];
      if d.source == main || d.source in Sources(kept) then kept else kept + [d]
  }

  lemma SourcesAppend(docs: seq<Doc>, d: Doc)
    ensures Sources(docs + [d]) == Sources(docs) + [d.source]
  {
  }

  /** Positions of first occurrences do not move when a document is added
      at the end. */
  lemma IndexOfSnoc(init: seq<Doc>, d: Doc)
    ensures forall x :: x in Sources(init) ==>
      x in Sources(init + [d]) && IndexOf(Sources(init + [d]), x) == IndexOf(Sources(init), x)
    ensures d.source !in Sources(init) ==>
      d.source in Sources(init + [d]) && IndexOf(Sources(init + [d]), d.source) == |init|
  {
    var docs := init + [d];
    SourcesAppend(init, d);
    SourcesHas(docs, |init|);
    assert Sources(docs)[..|docs| - 1] == Sources(init);
  }

  /** No path survives twice, and the main path never survives. */
  lemma {:induction false} KeptDistinct(main: string, docs: seq<Doc>)
    ensures forall i, j :: 0 <= i < j < |Kept(main, docs)| ==>
      Kept(main, docs)[i].source != Kept(main, docs)[j].source
    ensures main !in Sources(Kept(main, docs))
    decreases |docs|
  {
    if docs != [] {
      var init := docs[..|docs| - 1];
      var d := docs[|docs| - 1];
      var kept := Kept(main, init);
      KeptDistinct(main, init);
      if !(d.source == main || d.source in Sources(kept)) {
        SourcesAppend(kept, d);
        forall i | 0 <= i < |kept| ensures kept[i].source in Sources(kept) {
          SourcesHas(kept, i);
        }
      }
    }
  }

  /** Every path other than the main one that occurs in docs survives, and
      nothing else does. */
  lemma {:induction false} KeptComplete(main: string, docs: seq<Doc>)
    ensures forall x :: x in Sources(Kept(main, docs)) <==> x != main && x in Sources(docs)
    decreases |docs|
  {
    if docs != [] {
      var init := docs[..|docs| - 1];
      var d := docs[|docs| - 1];
      var kept := Kept(main, init);
      KeptComplete(main, init);
      assert docs == init + [d];
      SourcesAppend(init, d);
      if !(d.source == main || d.source in Sources(kept)) {
        SourcesAppend(kept, d);
      }
    }
  }

  /** Each survivor is the document at the first occurrence of its path, so
      its page is that occurrence's page. */
  lemma {:induction false} KeptFirstOccurrence(main: string, docs: seq<Doc>)
    ensures forall k :: 0 <= k < |Kept(main, docs)| ==>
      Kept(main, docs)[k].source in Sources(docs) &&
      Kept(main, docs)[k] == docs[IndexOf(Sources(docs), Kept(main, docs)[k].source)]
    decreases |docs|
  {
    if docs == [] {
      assert Kept(main, docs) == [];
    } else {
      var n := |docs| - 1;
      var init := docs[..n];
      var d := docs[n];
      var kept := Kept(main, init);
      assert docs == init + [d];
      KeptFirstOccurrence(main, init);
      KeptComplete(main, init);
      IndexOfSnoc(init, d);
      forall k | 0 <= k < |kept|
        ensures kept[k].source in Sources(docs)
        ensures kept[k] == docs[IndexOf(Sources(docs), kept[k].source)]
      {
        var j := IndexOf(Sources(init), kept[k].source);
        assert kept[k] == init[j] == docs[j];
      }
      if d.source == main || d.source in Sources(kept) {
        assert Kept(main, docs) == kept;
      } else {
        var out := kept + [d];
        assert Kept(main, docs) == out;
        assert d.source !in Sources(init);
        SourcesHas(docs, n);
        forall k | 0 <= k < |out|
          ensures out[k].source in Sources(docs)
          ensures out[k] == docs[IndexOf(Sources(docs), out[k].source)]
        {
          if k < |kept| {
            assert out[k] == kept[k];
          } else {
            assert out[k] == d;
          }
        }
      }
    }
  }

  /** Survivors keep the order of their first occurrences. */
  lemma {:induction false} KeptOrder(main: string, docs: seq<Doc>)
    ensures forall i, j :: 0 <= i < j < |Kept(main, docs)| ==>
      Kept(main, docs)[i].source in Sources(docs) &&
      Kept(main, docs)[j].source in Sources(docs) &&
      IndexOf(Sources(docs), Kept(main, docs)[i].source) < IndexOf(Sources(docs), Kept(main, docs)[j].source)
    decreases |docs|
  {
    if docs != [] {
      var n := |docs| - 1;
      var init := docs[..n];
      var d := docs[n];
      var kept := Kept(main, init);
      assert docs == init + [d];
      KeptOrder(main, init);
      KeptComplete(main, init);
      IndexOfSnoc(init, d);
      forall k | 0 <= k < |kept|
        ensures kept[k].source in Sources(init)
        ensures IndexOf(Sources(docs), kept[k].source) == IndexOf(Sources(init), kept[k].source) < n
      {
        SourcesHas(kept, k);
      }
      if d.source == main || d.source in Sources(kept) {
        assert Kept(main, docs) == kept;
        forall i, j | 0 <= i < j < |kept|
          ensures kept[i].source in Sources(docs) && kept[j].source in Sources(docs)
          ensures IndexOf(Sources(docs), kept[i].source) < IndexOf(Sources(docs), kept[j].source)
        {
          assert IndexOf(Sources(init), kept[i].source) < IndexOf(Sources(init), kept[j].source);
        }
      } else {
        var out := kept + [d];
        assert Kept(main, docs) == out;
        assert d.source !in Sources(init);
        SourcesHas(docs, n);
        forall i, j | 0 <= i < j < |out|
          ensures out[i].source in Sources(docs) && out[j].source in Sources(docs)
          ensures IndexOf(Sources(docs), out[i].source) < IndexOf(Sources(docs), out[j].source)
        {
          if j < |kept| {
            assert out[i] == kept[i] && out[j] == kept[j];
          } else {
            assert out[i] == kept[i] && out[j] == d;
          }
        }
      }
    } else {
      assert Kept(main, docs) == [];
    }
  }

  /** Nothing survives exactly when every document carries the main path. */
  lemma KeptEmpty(main: string, docs: seq<Doc>)
    ensures Kept(main, docs) == [] <==> forall i :: 0 <= i < |docs| ==> docs[i].source == main
  {
  }
}
