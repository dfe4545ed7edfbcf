/** The combiner of PLY_to_ABC/Python: `importABC` reads one intermediate
    archive back, and `exportABC` appends every input, in list order, as the
    next sample of one output mesh, creating the colour and UV parameters
    lazily. The `__main__` driver sorts the paths and refuses an empty list. */
module CombineAbc {
  import opened Wrappers
  import opened Abc
  import opened AbcRead
  import opened LazyParam
  import opened Strings

  // ---------------------------------------------------------------------
  // importABC
  // ---------------------------------------------------------------------

  /** The texture branch's named lookup: the parameter called "uvs", if any. */
  function NamedUvs(arb: seq<ArbProperty>): Result<Option<seq<V2f>>, ReadError>
  {
    if FindProperty(arb, UVS_NAME).None? then Ok(None)
    else
      match OpenV2f(arb, UVS_NAME)
      case Err(e) => Err(e)
      case Ok(uv) => Ok(Some(uv))
  }

  /** The texture branch: the named "uvs" parameter when it holds values,
      else the mesh's default UV slot. */
  function ReadUvs(m: StoredMesh): Result<Option<seq<V2f>>, ReadError>
  {
    match NamedUvs(m.arb)
    case Err(e) => Err(e)
    case Ok(named) =>
      if named.Some? && |named.value| > 0 then Ok(named)
      else if m.defaultUvs.None? then Err(NoUvParam)
      else Ok(m.defaultUvs)
  }

  /** `importABC` with the module flags `processInputColors` and
      `processInputTextures` (the latter set by the command line). */
  function Import(m: StoredMesh, colors: bool, textures: bool): Result<Decoded, ReadError>
  {
    var rgba := if colors then DecodeColor(m.arb) else Ok(None);
    if rgba.Err? then Err(rgba.error)
    else
      var uvs := if textures then ReadUvs(m) else Ok(None);
      if uvs.Err? then Err(uvs.error)
      else Ok(Decoded(m.sample, rgba.value, uvs.value))
  }

  /** What `importABC` promises: the mesh sample comes back unchanged; no
      colour when colours are off; with colours on, the decoder follows
      parameter 0's tag (`uint8` to C4c, `float32` to C4f, any other tag
      gives no colour); no UVs when textures are off; with textures on, the
      parameter named "uvs" when it holds values, else the default UV slot. */
  lemma ImportSpec(m: StoredMesh, colors: bool, textures: bool)
    ensures Import(m, colors, textures).Ok? ==> Import(m, colors, textures).value.sample == m.sample
    ensures Import(m, colors, textures).Ok? && !colors ==> Import(m, colors, textures).value.rgba.None?
    ensures Import(m, colors, textures).Ok? && colors && m.arb != [] ==>
      var rgba := Import(m, colors, textures).value.rgba;
      && (PodOf(m.arb[0].vals) == Uint8Pod ==> rgba == Some(C4cVals(OpenC4c(m.arb, RGBA_NAME).value)))
      && (PodOf(m.arb[0].vals) == Float32Pod ==> rgba == Some(C4fVals(OpenC4f(m.arb, RGBA_NAME).value)))
      && (PodOf(m.arb[0].vals).OtherPod? ==> rgba.None?)
    ensures colors && m.arb == [] ==> Import(m, colors, textures) == Err(NoArbProperty)
    ensures Import(m, colors, textures).Ok? && !textures ==> Import(m, colors, textures).value.uvs.None?
    ensures Import(m, colors, textures).Ok? && textures ==>
      var uvs := Import(m, colors, textures).value.uvs;
      var k := FindProperty(m.arb, UVS_NAME);
      if k.Some? && |m.arb[k.value].vals.uv| > 0 then uvs == Some(m.arb[k.value].vals.uv)
      else uvs == m.defaultUvs && m.defaultUvs.Some?
    ensures !colors && !textures ==> Import(m, colors, textures) == Ok(Decoded(m.sample, None, None))
    ensures Import(m, colors, textures).Ok? <==>
      (!colors || DecodeColor(m.arb).Ok?) && (!textures || UvSourcePresent(m))
    ensures colors && DecodeColor(m.arb).Err? ==> Import(m, colors, textures) == Err(DecodeColor(m.arb).error)
    ensures (!colors || DecodeColor(m.arb).Ok?) && textures && !UvSourcePresent(m) ==>
      Import(m, colors, textures) ==
        (if FindProperty(m.arb, UVS_NAME).Some? && !m.arb[FindProperty(m.arb, UVS_NAME).value].vals.V2fStored?
         then Err(ParamTypeMismatch(UVS_NAME)) else Err(NoUvParam))
  {
  }

  /** The texture branch can succeed: a parameter called "uvs", if any,
      holds V2f values, and either it holds some or the default UV slot is set. */
  predicate UvSourcePresent(m: StoredMesh)
  {
    var k := FindProperty(m.arb, UVS_NAME);
    && (k.Some? ==> m.arb[k.value].vals.V2fStored?)
    && ((k.Some? && |m.arb[k.value].vals.uv| > 0) || m.defaultUvs.Some?)
  }

  /** `importABC` as written: the colour dispatch, then the loop over the
      parameter headers that reads "uvs" wherever a header has that name,
      then the fallback to the default UV slot. */
  method ImportAbc(m: StoredMesh, colors: bool, textures: bool) returns (r: Result<Decoded, ReadError>)
    ensures r == Import(m, colors, textures)
  {
    var rgba: Option<ColorVals> := None;
    if colors {
      if m.arb == [] { return Err(NoArbProperty); }
      var decoder := ChooseDecoder(PodOf(m.arb[0].vals));
      if decoder == C4cDecoder {
        var c := OpenC4c(m.arb, RGBA_NAME);
        if c.Err? { return Err(c.error); }
        rgba := Some(C4cVals(c.value));
      } else if decoder == C4fDecoder {
        var f := OpenC4f(m.arb, RGBA_NAME);
        if f.Err? { return Err(f.error); }
        rgba := Some(C4fVals(f.value));
      }
    }
    var uvs: Option<seq<V2f>> := None;
    if textures {
      for i := 0 to |m.arb|
        invariant uvs.Some? <==> exists j :: 0 <= j < i && m.arb[j].name == UVS_NAME
        invariant uvs.Some? ==> OpenV2f(m.arb, UVS_NAME) == Ok(uvs.value)
      {
        if m.arb[i].name == UVS_NAME {
          var p := OpenV2f(m.arb, UVS_NAME);
          if p.Err? { return Err(p.error); }
          uvs := Some(p.value);
        }
      }
      assert uvs == NamedUvs(m.arb).value;
      if !(uvs.Some? && |uvs.value| > 0) {
        if m.defaultUvs.None? { return Err(NoUvParam); }
        uvs := m.defaultUvs;
      }
    }
    r := Ok(Decoded(m.sample, rgba, uvs));
  }

  // ---------------------------------------------------------------------
  // exportABC
  // ---------------------------------------------------------------------

  /** One turn of the export loop: the mesh sample always, a colour and a UV
      sample when the frame carries them, each parameter created on first use. */
  function AppendFrame(a: Archive, f: Decoded): Archive
  {
    Archive(a.meshSamples + [f.sample],
            LazyAppend(a.color, RGBA_NAME, ColorSample(f)),
            LazyAppend(a.uvs, UVS_NAME, UvSample(f)))
  }

  /** The output archive after appending the frames `fs` in order. */
  function Combine(fs: seq<Decoded>): Archive
  {
    if fs == [] then EMPTY_ARCHIVE
    else AppendFrame(Combine(fs[..|fs| - 1]), fs[|fs| - 1])
  }

  function MeshSamples(fs: seq<Decoded>): (r: seq<MeshSample>)
  {
    seq(|fs|, k requires 0 <= k < |fs| => fs[k].sample)
  }

  function ColorSamples(fs: seq<Decoded>): (r: seq<Option<ColorVals>>)
  {
    seq(|fs|, k requires 0 <= k < |fs| => ColorSample(fs[k]))
  }

  function UvSamples(fs: seq<Decoded>): (r: seq<Option<seq<V2f>>>)
  {
    seq(|fs|, k requires 0 <= k < |fs| => UvSample(fs[k]))
  }

  /** The combine loop is three independent channels: one mesh sample per
      frame in order, and per optional channel the lazy parameter over that
      channel's samples alone. */
  lemma {:induction false} CombineChannels(fs: seq<Decoded>)
    ensures Combine(fs) == Archive(MeshSamples(fs), FoldLazy(RGBA_NAME, ColorSamples(fs)),
                                   FoldLazy(UVS_NAME, UvSamples(fs)))
    decreases |fs|
  {
    if fs != [] {
      var n := |fs| - 1;
      CombineChannels(fs[..n]);
      assert MeshSamples(fs[..n]) + [fs[n].sample] == MeshSamples(fs);
      assert ColorSamples(fs)[..n] == ColorSamples(fs[..n]);
      assert UvSamples(fs)[..n] == UvSamples(fs[..n]);
    }
  }

  /** What `exportABC` promises about its output: exactly one mesh sample per
      input, in input order; a colour parameter named "rgba" iff some input
      carries colour, holding exactly the colours of the inputs that carry
      one, in order, so no more samples than mesh samples; and the same for
      "uvs", independently of colour. */
  lemma CombineSpec(fs: seq<Decoded>)
    ensures |Combine(fs).meshSamples| == |fs|
    ensures forall k :: 0 <= k < |fs| ==> Combine(fs).meshSamples[k] == fs[k].sample
    ensures Combine(fs).color == Reference(RGBA_NAME, ColorSamples(fs))
    ensures Combine(fs).color.Some? <==> exists k :: 0 <= k < |fs| && ColorSample(fs[k]).Some?
    ensures Combine(fs).color.Some? ==> |Combine(fs).color.value.samples| <= |Combine(fs).meshSamples|
    ensures Combine(fs).uvs == Reference(UVS_NAME, UvSamples(fs))
    ensures Combine(fs).uvs.Some? <==> exists k :: 0 <= k < |fs| && UvSample(fs[k]).Some?
    ensures Combine(fs).uvs.Some? ==> |Combine(fs).uvs.value.samples| <= |Combine(fs).meshSamples|
  {
    CombineChannels(fs);
    CombineColor(fs);
    CombineUvs(fs);
  }

  lemma CombineColor(fs: seq<Decoded>)
    ensures Combine(fs).color == Reference(RGBA_NAME, ColorSamples(fs))
    ensures Combine(fs).color.Some? <==> exists k :: 0 <= k < |fs| && ColorSample(fs[k]).Some?
    ensures Combine(fs).color.Some? ==> |Combine(fs).color.value.samples| <= |fs|
  {
    var xs := ColorSamples(fs);
    CombineChannels(fs);
    LazyShape(RGBA_NAME, xs);
    assert forall k :: 0 <= k < |fs| ==> xs[k] == ColorSample(fs[k]);
  }

  lemma CombineUvs(fs: seq<Decoded>)
    ensures Combine(fs).uvs == Reference(UVS_NAME, UvSamples(fs))
    ensures Combine(fs).uvs.Some? <==> exists k :: 0 <= k < |fs| && UvSample(fs[k]).Some?
    ensures Combine(fs).uvs.Some? ==> |Combine(fs).uvs.value.samples| <= |fs|
  {
    var xs := UvSamples(fs);
    CombineChannels(fs);
    LazyShape(UVS_NAME, xs);
    assert forall k :: 0 <= k < |fs| ==> xs[k] == UvSample(fs[k]);
  }

  /** The colour parameter exists after the first j inputs exactly when one
      of them carries colour: it is created at the first such input, not
      necessarily input 0, and is never reset afterwards. */
  lemma ColorCreatedLazily(fs: seq<Decoded>, j: nat)
    requires j <= |fs|
    ensures Combine(fs[..j]).color.Some? <==> exists k :: 0 <= k < j && ColorSample(fs[k]).Some?
    ensures Combine(fs[..j]).color.Some? ==>
      Combine(fs).color.Some? && Combine(fs[..j]).color.value.samples <= Combine(fs).color.value.samples
  {
    var xs := ColorSamples(fs);
    CombineChannels(fs[..j]);
    assert ColorSamples(fs[..j]) == xs[..j];
    assert Combine(fs[..j]).color == FoldLazy(RGBA_NAME, xs[..j]);
    CreatedAtFirstSupplier(RGBA_NAME, xs, j);
    assert forall k :: 0 <= k < j ==> xs[k] == ColorSample(fs[k]);
    if Combine(fs[..j]).color.Some? {
      CombineChannels(fs);
      NeverReset(RGBA_NAME, xs, j);
    }
  }

  /** The same lazy rule for the UV parameter. */
  lemma UvsCreatedLazily(fs: seq<Decoded>, j: nat)
    requires j <= |fs|
    ensures Combine(fs[..j]).uvs.Some? <==> exists k :: 0 <= k < j && UvSample(fs[k]).Some?
    ensures Combine(fs[..j]).uvs.Some? ==>
      Combine(fs).uvs.Some? && Combine(fs[..j]).uvs.value.samples <= Combine(fs).uvs.value.samples
  {
    var xs := UvSamples(fs);
    CombineChannels(fs[..j]);
    assert UvSamples(fs[..j]) == xs[..j];
    assert Combine(fs[..j]).uvs == FoldLazy(UVS_NAME, xs[..j]);
    CreatedAtFirstSupplier(UVS_NAME, xs, j);
    assert forall k :: 0 <= k < j ==> xs[k] == UvSample(fs[k]);
    if Combine(fs[..j]).uvs.Some? {
      CombineChannels(fs);
      NeverReset(UVS_NAME, xs, j);
    }
  }

  /** The inputs read before the first one whose import raises. */
  function Imported(inputs: seq<StoredMesh>, colors: bool, textures: bool): (fs: seq<Decoded>)
    ensures |fs| <= |inputs|
    ensures |fs| < |inputs| ==> Import(inputs[|fs|], colors, textures).Err?
    ensures forall k :: 0 <= k < |fs| ==> Import(inputs[k], colors, textures) == Ok(fs[k])
  {
    if inputs == [] then []
    else
      var n := |inputs| - 1;
      var fs := Imported(inputs[..n], colors, textures);
      assert forall k :: 0 <= k < n ==> inputs[..n][k] == inputs[k];
      if |fs| < n then fs
      else
        match Import(inputs[n], colors, textures)
        case Err(_) => fs
        case Ok(f) => fs + [f]
  }

  /** How a run of `exportABC` ends: every input appended, or an exception
      from the import of input `at`, with the archive as far as it got. */
  datatype ExportOutcome = Done(archive: Archive) | Aborted(at: nat, error: ReadError, partial: Archive)

  function Export(inputs: seq<StoredMesh>, colors: bool, textures: bool): ExportOutcome
  {
    var fs := Imported(inputs, colors, textures);
    if |fs| == |inputs| then Done(Combine(fs))
    else Aborted(|fs|, Import(inputs[|fs|], colors, textures).error, Combine(fs))
  }

  /** `exportABC` as written: the `color` and `uvsParam` slots start as None
      and are created on the first frame that supplies the channel; the mesh
      sample is set for every input. */
  method ExportAbc(inputs: seq<StoredMesh>, colors: bool, textures: bool) returns (out: ExportOutcome)
    ensures out == Export(inputs, colors, textures)
  {
    var meshSamples: seq<MeshSample> := [];
    var color: Option<GeomParam<ColorVals>> := None;
    var uvsParam: Option<GeomParam<seq<V2f>>> := None;
    for i := 0 to |inputs|
      invariant |Imported(inputs[..i], colors, textures)| == i
      invariant Archive(meshSamples, color, uvsParam) == Combine(Imported(inputs[..i], colors, textures))
    {
      var f := ImportAbc(inputs[i], colors, textures);
      if f.Err? {
        ImportStops(inputs, i, colors, textures);
        return Aborted(i, f.error, Archive(meshSamples, color, uvsParam));
      }
      ExportTurn(inputs, i, colors, textures);
      meshSamples, color, uvsParam := AppendSamples(meshSamples, color, uvsParam, f.value);
    }
    assert inputs[..|inputs|] == inputs;
    out := Done(Archive(meshSamples, color, uvsParam));
  }

  /** The body of the export loop: the mesh sample is always appended; the
      colour and UV parameters are created on the first frame that supplies
      their channel and then get that frame's sample. */
  method AppendSamples(meshSamples: seq<MeshSample>, color: Option<GeomParam<ColorVals>>,
                       uvsParam: Option<GeomParam<seq<V2f>>>, f: Decoded)
    returns (meshSamples': seq<MeshSample>, color': Option<GeomParam<ColorVals>>,
             uvsParam': Option<GeomParam<seq<V2f>>>)
    ensures Archive(meshSamples', color', uvsParam') == AppendFrame(Archive(meshSamples, color, uvsParam), f)
  {
    meshSamples', color', uvsParam' := meshSamples + [f.sample], color, uvsParam;
    var rgba := ColorSample(f);
    if rgba.Some? {
      if color'.None? {
        color' := Some(GeomParam(RGBA_NAME, []));
      }
      color' := Some(GeomParam(color'.value.name, color'.value.samples + [rgba.value]));
    }
    var uvs := UvSample(f);
    if uvs.Some? {
      if uvsParam'.None? {
        uvsParam' := Some(GeomParam(UVS_NAME, []));
      }
      uvsParam' := Some(GeomParam(uvsParam'.value.name, uvsParam'.value.samples + [uvs.value]));
    }
  }

  /** A turn of the export loop whose import succeeds extends the imported
      frames by that frame and the archive by that frame's samples. */
  lemma ExportTurn(inputs: seq<StoredMesh>, i: nat, colors: bool, textures: bool)
    requires i < |inputs|
    requires |Imported(inputs[..i], colors, textures)| == i
    requires Import(inputs[i], colors, textures).Ok?
    ensures |Imported(inputs[..i + 1], colors, textures)| == i + 1
    ensures Combine(Imported(inputs[..i + 1], colors, textures))
         == AppendFrame(Combine(Imported(inputs[..i], colors, textures)), Import(inputs[i], colors, textures).value)
  {
    ImportedStep(inputs, i, colors, textures);
    CombineAppend(Imported(inputs[..i], colors, textures), Import(inputs[i], colors, textures).value);
  }

  /** Appending one more frame is one more turn of the loop. */
  lemma CombineAppend(fs: seq<Decoded>, f: Decoded)
    ensures Combine(fs + [f]) == AppendFrame(Combine(fs), f)
  {
    assert (fs + [f])[..|fs|] == fs;
  }

  /** An input whose import raises ends the run: nothing after it is read. */
  lemma ImportStops(inputs: seq<StoredMesh>, i: nat, colors: bool, textures: bool)
    requires i < |inputs|
    requires |Imported(inputs[..i], colors, textures)| == i
    requires Import(inputs[i], colors, textures).Err?
    ensures Imported(inputs, colors, textures) == Imported(inputs[..i], colors, textures)
  {
    ImportedStep(inputs, i, colors, textures);
    ImportedStopped(inputs, i + 1, colors, textures);
  }

  /** One turn of the import loop after a prefix that imported completely. */
  lemma ImportedStep(inputs: seq<StoredMesh>, i: nat, colors: bool, textures: bool)
    requires i < |inputs|
    requires |Imported(inputs[..i], colors, textures)| == i
    ensures Imported(inputs[..i + 1], colors, textures) ==
      if Import(inputs[i], colors, textures).Ok?
      then Imported(inputs[..i], colors, textures) + [Import(inputs[i], colors, textures).value]
      else Imported(inputs[..i], colors, textures)
  {
    var prefix := inputs[..i + 1];
    assert prefix[..i] == inputs[..i] && prefix[i] == inputs[i];
  }

  /** A prefix that stopped early stays stopped one input later. */
  lemma StoppedStep(inputs: seq<StoredMesh>, k: nat, colors: bool, textures: bool)
    requires k < |inputs|
    requires |Imported(inputs[..k], colors, textures)| < k
    ensures Imported(inputs[..k + 1], colors, textures) == Imported(inputs[..k], colors, textures)
  {
    assert inputs[..k + 1][..k] == inputs[..k];
  }

  lemma {:induction false} ImportedStopped(inputs: seq<StoredMesh>, k: nat, colors: bool, textures: bool)
    requires k <= |inputs|
    requires |Imported(inputs[..k], colors, textures)| < k
    ensures Imported(inputs, colors, textures) == Imported(inputs[..k], colors, textures)
    decreases |inputs| - k
  {
    if k < |inputs| {
      StoppedStep(inputs, k, colors, textures);
      ImportedStopped(inputs, k + 1, colors, textures);
    } else {
      assert inputs[..k] == inputs;
    }
  }

  /** A run completes exactly when every import succeeds, and then it holds
      one mesh sample per input, each the input's own sample, in list order. */
  lemma ExportSpec(inputs: seq<StoredMesh>, colors: bool, textures: bool)
    ensures Export(inputs, colors, textures).Done? <==>
            forall k :: 0 <= k < |inputs| ==> Import(inputs[k], colors, textures).Ok?
    ensures Export(inputs, colors, textures).Done? ==>
      var a := Export(inputs, colors, textures).archive;
      && |a.meshSamples| == |inputs|
      && forall k :: 0 <= k < |inputs| ==> a.meshSamples[k] == inputs[k].sample
    ensures Export(inputs, colors, textures).Aborted? ==>
      var o := Export(inputs, colors, textures);
      && o.at < |inputs|
      && Import(inputs[o.at], colors, textures) == Err(o.error)
      && (forall k :: 0 <= k < o.at ==> Import(inputs[k], colors, textures).Ok?)
      && |o.partial.meshSamples| == o.at
      && forall k :: 0 <= k < o.at ==> o.partial.meshSamples[k] == inputs[k].sample
  {
    var fs := Imported(inputs, colors, textures);
    CombineSpec(fs);
    forall k | 0 <= k < |fs| ensures fs[k].sample == inputs[k].sample {
      ImportSpec(inputs[k], colors, textures);
    }
  }

  // ---------------------------------------------------------------------
  // __main__: sort, refuse an empty list, combine
  // ---------------------------------------------------------------------

  datatype MainOutcome = NoInputFiles | Combined(order: seq<string>, outcome: ExportOutcome)

  /** The paths of a list of discovered files. */
  function Paths<T>(files: seq<(string, T)>): (r: seq<string>)
    ensures |r| == |files|
  {
    seq(|files|, k requires 0 <= k < |files| => files[k].0)
  }

  /** The contents of a list of discovered files. */
  function Contents<T>(files: seq<(string, T)>): (r: seq<T>)
    ensures |r| == |files|
  {
    seq(|files|, k requires 0 <= k < |files| => files[k].1)
  }

  /** The driver after discovery: `inputAbcFilenames.sort()`, exit when the
      list is empty, otherwise `exportABC` over the sorted list. The files
      are given as (path, contents) pairs in whatever order discovery found them. */
  function CombineMain(found: seq<(string, StoredMesh)>, colors: bool, textures: bool): MainOutcome
  {
    var sorted := SortByName(found);
    if |sorted| == 0 then NoInputFiles
    else Combined(Paths(sorted), Export(Contents(sorted), colors, textures))
  }

  /** Inputs are combined in ascending string order of their paths, each path
      once: the order is a sorted permutation of the discovered paths. The
      run completes exactly when every discovered file imports, and then its
      k-th mesh sample comes from a discovered file at the k-th path; it
      aborts otherwise, at a path whose file does not import, having written
      the samples of the files at the paths before it and no more. An empty
      list exits before anything is combined. */
  lemma CombineMainSpec(found: seq<(string, StoredMesh)>, colors: bool, textures: bool)
    ensures CombineMain(found, colors, textures).NoInputFiles? <==> found == []
    ensures CombineMain(found, colors, textures).Combined? ==>
      var o := CombineMain(found, colors, textures);
      && |o.order| == |found|
      && multiset(o.order) == multiset(Paths(found))
      && (forall i, j :: 0 <= i < j < |o.order| ==> StrLe(o.order[i], o.order[j]))
    ensures CombineMain(found, colors, textures).Combined? ==>
      var o := CombineMain(found, colors, textures);
      && (o.outcome.Done? <==> forall e :: e in found ==> Import(e.1, colors, textures).Ok?)
      && (o.outcome.Done? ==>
            |o.outcome.archive.meshSamples| == |found|
            && forall k :: 0 <= k < |found| ==>
                 (o.order[k], o.outcome.archive.meshSamples[k]) in SampleOf(found))
    ensures CombineMain(found, colors, textures).Combined? ==>
      var o := CombineMain(found, colors, textures);
      o.outcome.Aborted? ==>
        && o.outcome.at < |o.order|
        && o.order[o.outcome.at] in Unreadable(found, colors, textures)
        && |o.outcome.partial.meshSamples| == o.outcome.at
        && forall k :: 0 <= k < o.outcome.at ==>
             (o.order[k], o.outcome.partial.meshSamples[k]) in SampleOf(found)
  {
    var sorted := SortByName(found);
    assert |sorted| == |multiset(sorted)| == |multiset(found)| == |found|;
    if sorted != [] {
      NamesOfPermutation(sorted, found);
      SortedEntries(found, sorted, colors, textures);
      MainCompleted(found, sorted, colors, textures);
      MainAborted(found, sorted, colors, textures);
    }
  }

  /** The completed half of the driver over a sorted permutation. */
  lemma MainCompleted(found: seq<(string, StoredMesh)>, sorted: seq<(string, StoredMesh)>, colors: bool, textures: bool)
    requires sorted == SortByName(found) && |sorted| == |found|
    requires forall k :: 0 <= k < |sorted| ==> (Paths(sorted)[k], Contents(sorted)[k].sample) in SampleOf(found)
    requires (forall k :: 0 <= k < |sorted| ==> Import(Contents(sorted)[k], colors, textures).Ok?) <==>
             (forall e :: e in found ==> Import(e.1, colors, textures).Ok?)
    ensures CombineMain(found, colors, textures).Combined? ==>
      var o := CombineMain(found, colors, textures);
      && (o.outcome.Done? <==> forall e :: e in found ==> Import(e.1, colors, textures).Ok?)
      && (o.outcome.Done? ==>
            |o.outcome.archive.meshSamples| == |found|
            && forall k :: 0 <= k < |found| ==>
                 (o.order[k], o.outcome.archive.meshSamples[k]) in SampleOf(found))
  {
    ExportSpec(Contents(sorted), colors, textures);
  }

  /** The aborted half of the driver over a sorted permutation. */
  lemma MainAborted(found: seq<(string, StoredMesh)>, sorted: seq<(string, StoredMesh)>, colors: bool, textures: bool)
    requires sorted == SortByName(found)
    requires forall k :: 0 <= k < |sorted| ==> (Paths(sorted)[k], Contents(sorted)[k].sample) in SampleOf(found)
    requires forall k :: 0 <= k < |sorted| && Import(Contents(sorted)[k], colors, textures).Err? ==>
      Paths(sorted)[k] in Unreadable(found, colors, textures)
    ensures CombineMain(found, colors, textures).Combined? ==>
      var o := CombineMain(found, colors, textures);
      o.outcome.Aborted? ==>
        && o.outcome.at < |o.order|
        && o.order[o.outcome.at] in Unreadable(found, colors, textures)
        && |o.outcome.partial.meshSamples| == o.outcome.at
        && forall k :: 0 <= k < o.outcome.at ==>
             (o.order[k], o.outcome.partial.meshSamples[k]) in SampleOf(found)
  {
    ExportSpec(Contents(sorted), colors, textures);
  }

  /** The paths of the discovered files that do not import. */
  ghost function Unreadable(found: seq<(string, StoredMesh)>, colors: bool, textures: bool): set<string>
  {
    set e | e in found && Import(e.1, colors, textures).Err? :: e.0
  }

  /** Position k of a permutation of the discovered files is a discovered
      file: its sample is that file's, it fails only if that file fails,
      and every position imports exactly when every discovered file does. */
  lemma SortedEntries(found: seq<(string, StoredMesh)>, sorted: seq<(string, StoredMesh)>, colors: bool, textures: bool)
    requires multiset(sorted) == multiset(found)
    ensures forall k :: 0 <= k < |sorted| ==> (Paths(sorted)[k], Contents(sorted)[k].sample) in SampleOf(found)
    ensures forall k :: 0 <= k < |sorted| && Import(Contents(sorted)[k], colors, textures).Err? ==>
      Paths(sorted)[k] in Unreadable(found, colors, textures)
    ensures (forall k :: 0 <= k < |sorted| ==> Import(Contents(sorted)[k], colors, textures).Ok?) <==>
            (forall e :: e in found ==> Import(e.1, colors, textures).Ok?)
  {
    forall k | 0 <= k < |sorted|
      ensures sorted[k] in found
      ensures Paths(sorted)[k] == sorted[k].0 && Contents(sorted)[k] == sorted[k].1
    {
      assert sorted[k] in multiset(found);
    }
    if forall k :: 0 <= k < |sorted| ==> Import(Contents(sorted)[k], colors, textures).Ok? {
      forall e | e in found
        ensures Import(e.1, colors, textures).Ok?
      {
        assert e in multiset(sorted);
        var k :| 0 <= k < |sorted| && sorted[k] == e;
        assert Import(Contents(sorted)[k], colors, textures).Ok?;
      }
    }
  }

  /** The (path, mesh sample) pairs of the discovered files. */
  ghost function SampleOf(found: seq<(string, StoredMesh)>): set<(string, MeshSample)>
  {
    set e | e in found :: (e.0, e.1.sample)
  }

  /** Permuted pairs have permuted first components. */
  lemma {:induction false} NamesOfPermutation<T>(a: seq<(string, T)>, b: seq<(string, T)>)
    requires multiset(a) == multiset(b)
    ensures multiset(Paths(a)) == multiset(Paths(b))
    decreases |a|
  {
    if a != [] {
      var i := TakeOut(a, b);
      var b' := b[..i] + b[i + 1..];
      NamesOfPermutation(a[1..], b');
      PathsRemoveAt(b, i);
      RemoveAt(Paths(b), i);
      assert Paths(a) == [a[0].0] + Paths(a[1..]);
    }
  }

  /** The head of a permuted list sits somewhere in the other list, and the
      rests are permutations of each other. */
  lemma TakeOut<U>(a: seq<U>, b: seq<U>) returns (i: nat)
    requires a != [] && multiset(a) == multiset(b)
    ensures i < |b| && b[i] == a[0]
    ensures multiset(a[1..]) == multiset(b[..i] + b[i + 1..])
  {
    assert a == [a[0]] + a[1..];
    assert a[0] in multiset(b);
    i :| 0 <= i < |b| && b[i] == a[0];
    RemoveAt(b, i);
  }

  /** Removing the entry at i removes one occurrence of it from the multiset. */
  lemma RemoveAt<U>(s: seq<U>, i: nat)
    requires i < |s|
    ensures multiset(s[..i] + s[i + 1..]) == multiset(s) - multiset{s[i]}
    ensures s[i] in multiset(s)
  {
    assert s == s[..i] + [s[i]] + s[i + 1..];
  }

  /** The paths after removing entry i are the paths with path i removed. */
  lemma PathsRemoveAt<T>(b: seq<(string, T)>, i: nat)
    requires i < |b|
    ensures Paths(b[..i] + b[i + 1..]) == Paths(b)[..i] + Paths(b)[i + 1..]
    ensures Paths(b)[i] == b[i].0
  {
  }
}
