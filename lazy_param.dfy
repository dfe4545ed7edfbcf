/** The lazily created output parameter both combiners keep per optional
    channel: it starts absent, is created at the first frame that supplies
    the channel, and from then on gets one sample per frame that supplies it. */
module LazyParam {
  import opened Wrappers
  import opened Abc

  /** One turn of the combine loop for one channel: `if s: if not param:
      create; param.set(s)`. */
  function LazyAppend<T>(p: Option<GeomParam<T>>, name: string, s: Option<T>): (r: Option<GeomParam<T>>)
  {
    match s
    case None => p
    case Some(v) =>
      var created := if p.None? then GeomParam(name, []) else p.value;
      Some(GeomParam(created.name, created.samples + [v]))
  }

  /** The channel's parameter after the loop has seen the per-frame samples `xs`. */
  function FoldLazy<T>(name: string, xs: seq<Option<T>>): Option<GeomParam<T>>
  {
    if xs == [] then None
    else LazyAppend(FoldLazy(name, xs[..|xs| - 1]), name, xs[|xs| - 1])
  }

  /** The samples that are present, in order. */
  function Present<T>(xs: seq<Option<T>>): (r: seq<T>)
  {
    if xs == [] then []
    else Present(xs[..|xs| - 1]) + (if xs[|xs| - 1].Some? then [xs[|xs| - 1].value] else [])
  }

  /** The reference definition: a parameter exists iff some frame supplied
      the channel, and then it holds exactly the supplied samples, in order. */
  function Reference<T>(name: string, xs: seq<Option<T>>): Option<GeomParam<T>>
  {
    if Present(xs) == [] then None else Some(GeomParam(name, Present(xs)))
  }

  /** The lazy loop computes the reference definition. */
  lemma {:induction false} FoldLazyIsReference<T>(name: string, xs: seq<Option<T>>)
    ensures FoldLazy(name, xs) == Reference(name, xs)
    decreases |xs|
  {
    if xs != [] {
      var n := |xs| - 1;
      FoldLazyIsReference(name, xs[..n]);
      assert Present(xs) == Present(xs[..n]) + (if xs[n].Some? then [xs[n].value] else []);
      assert FoldLazy(name, xs) == LazyAppend(FoldLazy(name, xs[..n]), name, xs[n]);
      if xs[n].Some? {
        var v := xs[n].value;
        assert Present(xs) == Present(xs[..n]) + [v];
        if Present(xs[..n]) == [] {
          assert FoldLazy(name, xs[..n]) == None;
          assert Present(xs) == [v];
          assert FoldLazy(name, xs) == Some(GeomParam(name, [v]));
        } else {
          assert FoldLazy(name, xs[..n]) == Some(GeomParam(name, Present(xs[..n])));
          assert FoldLazy(name, xs) == Some(GeomParam(name, Present(xs[..n]) + [v]));
        }
        assert Reference(name, xs) == Some(GeomParam(name, Present(xs)));
      } else {
        assert Present(xs) == Present(xs[..n]);
      }
    }
  }

  /** No samples are present exactly when no frame supplied one. */
  lemma {:induction false} PresentEmpty<T>(xs: seq<Option<T>>)
    ensures Present(xs) == [] <==> forall k :: 0 <= k < |xs| ==> xs[k].None?
    decreases |xs|
  {
    if xs != [] {
      var n := |xs| - 1;
      PresentEmpty(xs[..n]);
      assert forall k :: 0 <= k < n ==> xs[..n][k] == xs[k];
    }
  }

  /** As many samples as frames that supplied one, never more than frames. */
  lemma {:induction false} PresentCount<T>(xs: seq<Option<T>>)
    ensures |Present(xs)| == |set k | 0 <= k < |xs| && xs[k].Some?|
    ensures |Present(xs)| <= |xs|
    decreases |xs|
  {
    if xs != [] {
      var n := |xs| - 1;
      PresentCount(xs[..n]);
      var before := set k | 0 <= k < n && xs[..n][k].Some?;
      var after := set k | 0 <= k < |xs| && xs[k].Some?;
      if xs[n].Some? {
        assert after == before + {n};
      } else {
        assert after == before;
      }
    }
  }

  /** Samples are only ever appended: an earlier state's samples are a prefix of a later one's. */
  lemma {:induction false} PresentGrows<T>(xs: seq<Option<T>>, j: nat)
    requires j <= |xs|
    ensures Present(xs[..j]) <= Present(xs)
    decreases |xs| - j
  {
    if j < |xs| {
      PresentGrows(xs, j + 1);
      assert xs[..j + 1][..j] == xs[..j];
    } else {
      assert xs[..j] == xs;
    }
  }

  /** Once created the parameter is never reset, keeps its name, and its
      samples only grow. */
  lemma NeverReset<T>(name: string, xs: seq<Option<T>>, j: nat)
    requires j <= |xs|
    requires FoldLazy(name, xs[..j]).Some?
    ensures FoldLazy(name, xs).Some?
    ensures FoldLazy(name, xs).value.name == name
    ensures FoldLazy(name, xs[..j]).value.samples <= FoldLazy(name, xs).value.samples
  {
    FoldLazyIsReference(name, xs);
    FoldLazyIsReference(name, xs[..j]);
    PresentGrows(xs, j);
  }

  /** The parameter exists after a prefix of the frames exactly when some
      frame of that prefix supplied the channel: it is created at the first one. */
  lemma CreatedAtFirstSupplier<T>(name: string, xs: seq<Option<T>>, j: nat)
    requires j <= |xs|
    ensures FoldLazy(name, xs[..j]).Some? <==> exists k :: 0 <= k < j && xs[k].Some?
  {
    FoldLazyIsReference(name, xs[..j]);
    PresentEmpty(xs[..j]);
    assert forall k :: 0 <= k < j ==> xs[..j][k] == xs[k];
  }

  /** The lazy parameter over all frames exists exactly when some frame
      supplied the channel, and never holds more samples than there were frames. */
  lemma LazyShape<T>(name: string, xs: seq<Option<T>>)
    ensures FoldLazy(name, xs) == Reference(name, xs)
    ensures FoldLazy(name, xs).Some? <==> exists k :: 0 <= k < |xs| && xs[k].Some?
    ensures FoldLazy(name, xs).Some? ==> |FoldLazy(name, xs).value.samples| <= |xs|
  {
    FoldLazyIsReference(name, xs);
    PresentEmpty(xs);
    PresentCount(xs);
  }
}
