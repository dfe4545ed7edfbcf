/** The older combiner, PLY_to_ABC/combine_ABC.py. Its `importABC` decodes
    colour whatever the colour flag says and reads UVs only by name; its
    `exportABC` creates the UV parameter through the undefined name `aG`, so
    the first input that carries UVs ends the run with a `NameError`. */
module LegacyCombineAbc {
  import opened Wrappers
  import opened Abc
  import opened AbcRead
  import opened LazyParam
  import opened Strings
  import CombineAbc

  /** `importABC`: the colour dispatch on property 0's tag always runs (the
      `plyContainsColors` flag is never read), then, when `plyContainsTexture`
      is set, the parameter named "uvs" is opened, with no fallback. */
  function LegacyImport(m: StoredMesh, textures: bool): (r: Result<Decoded, ReadError>)
  {
    match DecodeColor(m.arb)
    case Err(e) => Err(e)
    case Ok(rgba) =>
      if !textures then Ok(Decoded(m.sample, rgba, None))
      else
        match OpenV2f(m.arb, UVS_NAME)
        case Err(e) => Err(e)
        case Ok(uv) => Ok(Decoded(m.sample, rgba, Some(uv)))
  }

  /** The legacy importer decodes colour exactly as the newer one does with
      colours switched on, and needs a "uvs" property where the newer one
      falls back to the default UV slot: an archive without any arbitrary
      property cannot be read at all, and with textures on, a missing "uvs"
      property is an error even when a default UV slot exists. */
  lemma LegacyImportSpec(m: StoredMesh, textures: bool)
    ensures !textures ==> LegacyImport(m, textures) == CombineAbc.Import(m, true, false)
    ensures m.arb == [] ==> LegacyImport(m, textures) == Err(NoArbProperty)
    ensures LegacyImport(m, textures).Ok? ==> LegacyImport(m, textures).value.sample == m.sample
    ensures LegacyImport(m, textures).Ok? && textures ==>
      && FindProperty(m.arb, UVS_NAME).Some?
      && LegacyImport(m, textures).value.uvs == Some(m.arb[FindProperty(m.arb, UVS_NAME).value].vals.uv)
    ensures textures && m.arb != [] && FindProperty(m.arb, UVS_NAME).None? ==> LegacyImport(m, textures).Err?
    ensures LegacyImport(m, textures).Ok? && !textures ==> LegacyImport(m, textures).value.uvs.None?
    ensures DecodeColor(m.arb).Err? ==> LegacyImport(m, textures) == Err(DecodeColor(m.arb).error)
    ensures LegacyImport(m, textures).Ok? ==> LegacyImport(m, textures).value.rgba == DecodeColor(m.arb).value
    ensures textures ==>
      (LegacyImport(m, textures).Ok? <==> DecodeColor(m.arb).Ok? && OpenV2f(m.arb, UVS_NAME).Ok?)
    ensures textures && DecodeColor(m.arb).Ok? && OpenV2f(m.arb, UVS_NAME).Err? ==>
      LegacyImport(m, textures) == Err(OpenV2f(m.arb, UVS_NAME).error)
    ensures !textures ==> (LegacyImport(m, textures).Ok? <==> DecodeColor(m.arb).Ok?)
  {
  }

  /** The colour the legacy importer returns does not depend on
      `plyContainsTexture`: whenever both imports succeed they agree on it,
      and a colour error is the same error either way. */
  lemma LegacyColorIgnoresTextures(m: StoredMesh)
    ensures LegacyImport(m, true).Ok? ==>
      LegacyImport(m, false).Ok? && LegacyImport(m, true).value.rgba == LegacyImport(m, false).value.rgba
    ensures DecodeColor(m.arb).Err? ==> LegacyImport(m, true) == LegacyImport(m, false)
  {
    LegacyImportSpec(m, true);
    LegacyImportSpec(m, false);
  }

  /** How a legacy run ends: every input combined, an exception from the
      import of input `at`, or the `NameError` raised at input `at` after its
      mesh and colour samples were written. */
  datatype LegacyError = ImportFailed(cause: ReadError) | UndefinedName(name: string)

  datatype LegacyOutcome =
    | Finished(archive: Archive)
    | Raised(at: nat, error: LegacyError, partial: Archive)

  /** The identifier the UV branch evaluates and Python cannot resolve. */
  const UNDEFINED_MODULE: string := "aG"

  /** One turn of the legacy loop on input `at`, starting from archive `a`. */
  function LegacyStep(a: Archive, at: nat, m: StoredMesh, textures: bool): LegacyOutcome
  {
    match LegacyImport(m, textures)
    case Err(e) => Raised(at, ImportFailed(e), a)
    case Ok(f) =>
      var a' := Archive(a.meshSamples + [f.sample], LazyAppend(a.color, RGBA_NAME, ColorSample(f)), a.uvs);
      if UvSample(f).Some? then Raised(at, UndefinedName(UNDEFINED_MODULE), a') else Finished(a')
  }

  /** `exportABC`, input by input. */
  function LegacyRun(inputs: seq<StoredMesh>, textures: bool): LegacyOutcome
  {
    if inputs == [] then Finished(EMPTY_ARCHIVE)
    else
      var n := |inputs| - 1;
      match LegacyRun(inputs[..n], textures)
      case Raised(at, e, partial) => Raised(at, e, partial)
      case Finished(a) => LegacyStep(a, n, inputs[n], textures)
  }

  /** An input is combined without raising when it imports and carries no UVs. */
  predicate Passes(m: StoredMesh, textures: bool)
  {
    LegacyImport(m, textures).Ok? && UvSample(LegacyImport(m, textures).value).None?
  }

  /** One turn finishes exactly on an input that passes, appending its
      mesh sample; it raises on the import error before writing, or on `aG`
      after writing the mesh sample; the UV slot is never touched. */
  lemma LegacyStepSpec(a: Archive, at: nat, m: StoredMesh, textures: bool)
    ensures LegacyStep(a, at, m, textures).Finished? <==> Passes(m, textures)
    ensures LegacyStep(a, at, m, textures).Finished? ==>
      LegacyStep(a, at, m, textures).archive.meshSamples == a.meshSamples + [m.sample]
      && LegacyStep(a, at, m, textures).archive.uvs == a.uvs
    ensures LegacyStep(a, at, m, textures).Raised? ==>
      var o := LegacyStep(a, at, m, textures);
      && o.at == at
      && o.partial.uvs == a.uvs
      && (o.error.ImportFailed? ==> LegacyImport(m, textures) == Err(o.error.cause) && o.partial == a)
      && (o.error.UndefinedName? ==>
            && o.error.name == UNDEFINED_MODULE
            && LegacyImport(m, textures).Ok?
            && o.partial.meshSamples == a.meshSamples + [m.sample])
  {
    if LegacyImport(m, textures).Ok? {
      LegacyImportSpec(m, textures);
    }
  }

  /** A legacy run finishes exactly when every input imports without UVs,
      and then holds one mesh sample per input, in order, and no UV parameter. */
  lemma LegacyRunFinished(inputs: seq<StoredMesh>, textures: bool)
    ensures LegacyRun(inputs, textures).Finished? <==> forall k :: 0 <= k < |inputs| ==> Passes(inputs[k], textures)
    ensures LegacyRun(inputs, textures).Finished? ==>
      var a := LegacyRun(inputs, textures).archive;
      && a.uvs.None?
      && |a.meshSamples| == |inputs|
      && forall k :: 0 <= k < |inputs| ==> a.meshSamples[k] == inputs[k].sample
  {
    FinishedIffPasses(inputs, textures);
    FinishedArchive(inputs, textures);
  }

  lemma {:induction false} FinishedIffPasses(inputs: seq<StoredMesh>, textures: bool)
    ensures LegacyRun(inputs, textures).Finished? <==> forall k :: 0 <= k < |inputs| ==> Passes(inputs[k], textures)
    decreases |inputs|
  {
    if inputs != [] {
      var n := |inputs| - 1;
      FinishedIffPasses(inputs[..n], textures);
      AllLast(inputs, inputs[..n], m => Passes(m, textures));
      if LegacyRun(inputs[..n], textures).Finished? {
        LegacyStepSpec(LegacyRun(inputs[..n], textures).archive, n, inputs[n], textures);
      }
    }
  }

  /** A property holds of every element exactly when it holds of every
      element but the last, and of the last. */
  lemma AllLast<T>(xs: seq<T>, init: seq<T>, p: T -> bool)
    requires xs != [] && init == xs[..|xs| - 1]
    ensures (forall k :: 0 <= k < |xs| ==> p(xs[k])) <==>
            (forall k :: 0 <= k < |init| ==> p(init[k])) && p(xs[|xs| - 1])
  {
    assert forall k :: 0 <= k < |init| ==> init[k] == xs[k];
  }

  lemma {:induction false} FinishedArchive(inputs: seq<StoredMesh>, textures: bool)
    ensures LegacyRun(inputs, textures).Finished? ==>
      var a := LegacyRun(inputs, textures).archive;
      && a.uvs.None?
      && |a.meshSamples| == |inputs|
      && forall k :: 0 <= k < |inputs| ==> a.meshSamples[k] == inputs[k].sample
    decreases |inputs|
  {
    if inputs != [] {
      var n := |inputs| - 1;
      FinishedArchive(inputs[..n], textures);
      if LegacyRun(inputs[..n], textures).Finished? {
        var a := LegacyRun(inputs[..n], textures).archive;
        LegacyStepSpec(a, n, inputs[n], textures);
        if LegacyRun(inputs, textures).Finished? {
          var a' := LegacyRun(inputs, textures).archive;
          assert a'.meshSamples == a.meshSamples + [inputs[n].sample];
          forall k | 0 <= k < |inputs| ensures a'.meshSamples[k] == inputs[k].sample {
            if k < n { assert inputs[..n][k] == inputs[k]; }
          }
        }
      }
    }
  }

  /** A legacy run that raises does so at the first input that does not
      pass: on an import error with that input's mesh sample not yet written,
      on the undefined name `aG` just after its mesh sample is written. */
  lemma {:induction false} LegacyRunRaised(inputs: seq<StoredMesh>, textures: bool)
    ensures LegacyRun(inputs, textures).Raised? ==>
      var o := LegacyRun(inputs, textures);
      && o.at < |inputs|
      && o.partial.uvs.None?
      && (forall k :: 0 <= k < o.at ==> Passes(inputs[k], textures))
      && !Passes(inputs[o.at], textures)
      && (o.error.ImportFailed? ==>
            LegacyImport(inputs[o.at], textures) == Err(o.error.cause) && |o.partial.meshSamples| == o.at)
      && (o.error.UndefinedName? ==>
            && o.error.name == UNDEFINED_MODULE
            && LegacyImport(inputs[o.at], textures).Ok?
            && |o.partial.meshSamples| == o.at + 1
            && o.partial.meshSamples[o.at] == inputs[o.at].sample)
    decreases |inputs|
  {
    if inputs != [] {
      var n := |inputs| - 1;
      var prefix := inputs[..n];
      assert forall k :: 0 <= k < n ==> prefix[k] == inputs[k];
      if LegacyRun(prefix, textures).Finished? {
        LegacyRunFinished(prefix, textures);
        LegacyStepSpec(LegacyRun(prefix, textures).archive, n, inputs[n], textures);
      } else {
        LegacyRunRaised(prefix, textures);
        assert LegacyRun(inputs, textures) == LegacyRun(prefix, textures);
      }
    }
  }

  /** The samples a raised legacy run leaves behind are those of its first
      inputs, in input order. */
  lemma {:induction false} RaisedSamples(inputs: seq<StoredMesh>, textures: bool)
    ensures LegacyRun(inputs, textures).Raised? ==>
      var p := LegacyRun(inputs, textures).partial;
      && |p.meshSamples| <= |inputs|
      && forall k :: 0 <= k < |p.meshSamples| ==> p.meshSamples[k] == inputs[k].sample
    decreases |inputs|
  {
    if inputs != [] {
      var n := |inputs| - 1;
      var prefix := inputs[..n];
      assert forall k :: 0 <= k < n ==> prefix[k] == inputs[k];
      if LegacyRun(prefix, textures).Finished? {
        var a := LegacyRun(prefix, textures).archive;
        FinishedArchive(prefix, textures);
        LegacyStepSpec(a, n, inputs[n], textures);
        if LegacyRun(inputs, textures).Raised? {
          var p := LegacyRun(inputs, textures).partial;
          assert p.meshSamples == a.meshSamples || p.meshSamples == a.meshSamples + [inputs[n].sample];
        }
      } else {
        RaisedSamples(prefix, textures);
        assert LegacyRun(inputs, textures) == LegacyRun(prefix, textures);
      }
    }
  }

  /** With textures off no input carries UVs, so the run can only stop on an
      import error and never creates a UV parameter. */
  lemma TexturesOffNoNameError(inputs: seq<StoredMesh>)
    ensures LegacyRun(inputs, false).Raised? ==> LegacyRun(inputs, false).error.ImportFailed?
    ensures LegacyRun(inputs, false).Finished? ==> LegacyRun(inputs, false).archive.uvs.None?
  {
    LegacyRunFinished(inputs, false);
    LegacyRunRaised(inputs, false);
    if LegacyRun(inputs, false).Raised? {
      LegacyImportSpec(inputs[LegacyRun(inputs, false).at], false);
    }
  }

  /** A finished legacy run writes what the newer combiner writes for the
      same decoded frames: the same lazy colour parameter, created at the
      first input with colour and holding exactly the inputs' colours. */
  lemma {:induction false} LegacyFinishedIsCombine(inputs: seq<StoredMesh>, textures: bool, fs: seq<Decoded>)
    requires |fs| == |inputs|
    requires forall k :: 0 <= k < |inputs| ==> LegacyImport(inputs[k], textures) == Ok(fs[k])
    requires forall k :: 0 <= k < |fs| ==> UvSample(fs[k]).None?
    ensures LegacyRun(inputs, textures) == Finished(CombineAbc.Combine(fs))
    decreases |inputs|
  {
    if inputs != [] {
      var n := |inputs| - 1;
      assert forall k :: 0 <= k < n ==> inputs[..n][k] == inputs[k] && fs[..n][k] == fs[k];
      LegacyFinishedIsCombine(inputs[..n], textures, fs[..n]);
      CombineAbc.CombineUvs(fs[..n]);
      assert LegacyImport(inputs[n], textures) == Ok(fs[n]);
    }
  }

  /** `exportABC` as written: the mesh sample is set, the colour parameter
      created on first use, and the UV branch raises before anything else. */
  method LegacyExportAbc(inputs: seq<StoredMesh>, textures: bool) returns (out: LegacyOutcome)
    ensures out == LegacyRun(inputs, textures)
  {
    var meshSamples: seq<MeshSample> := [];
    var color: Option<GeomParam<ColorVals>> := None;
    for i := 0 to |inputs|
      invariant LegacyRun(inputs[..i], textures) == Finished(Archive(meshSamples, color, None))
    {
      assert inputs[..i + 1][..i] == inputs[..i];
      var f := LegacyImport(inputs[i], textures);
      if f.Err? {
        out := Raised(i, ImportFailed(f.error), Archive(meshSamples, color, None));
        RaisedStays(inputs, i + 1, textures);
        return;
      }
      meshSamples := meshSamples + [f.value.sample];
      var rgba := ColorSample(f.value);
      if rgba.Some? {
        if color.None? {
          color := Some(GeomParam(RGBA_NAME, []));
        }
        color := Some(GeomParam(color.value.name, color.value.samples + [rgba.value]));
      }
      if UvSample(f.value).Some? {
        out := Raised(i, UndefinedName(UNDEFINED_MODULE), Archive(meshSamples, color, None));
        RaisedStays(inputs, i + 1, textures);
        return;
      }
    }
    assert inputs[..|inputs|] == inputs;
    out := Finished(Archive(meshSamples, color, None));
  }

  /** Once a prefix has raised, the whole run ends the same way. */
  lemma {:induction false} RaisedStays(inputs: seq<StoredMesh>, k: nat, textures: bool)
    requires k <= |inputs|
    requires LegacyRun(inputs[..k], textures).Raised?
    ensures LegacyRun(inputs, textures) == LegacyRun(inputs[..k], textures)
    decreases |inputs| - k
  {
    if k < |inputs| {
      assert inputs[..k + 1][..k] == inputs[..k];
      RaisedStays(inputs, k + 1, textures);
    } else {
      assert inputs[..k] == inputs;
    }
  }

  /** A stored mesh with one coloured, textured vertex. */
  function UvExampleMesh(): (m: StoredMesh)
  {
    StoredMesh(MeshSample([V3f(0.0, 0.0, 0.0)], [], []),
               [ArbProperty(RGBA_NAME, C4fStored([C4f(1.0, 1.0, 1.0, 1.0)])),
                ArbProperty(UVS_NAME, V2fStored([V2f(0.5, 0.5)]))],
               None)
  }

  /** How both importers read the example mesh with textures on. */
  lemma UvExampleImports()
    ensures var f := Decoded(UvExampleMesh().sample, Some(C4fVals([C4f(1.0, 1.0, 1.0, 1.0)])), Some([V2f(0.5, 0.5)]));
      && LegacyImport(UvExampleMesh(), true) == Ok(f)
      && CombineAbc.Import(UvExampleMesh(), true, true) == Ok(f)
      && ColorSample(f) == f.rgba && UvSample(f) == f.uvs
  {
    var m := UvExampleMesh();
    assert RGBA_NAME[0] != UVS_NAME[0];
    assert FindProperty(m.arb, RGBA_NAME) == Some(0);
    assert FindProperty(m.arb, UVS_NAME) == Some(1);
  }

  /** The legacy run on the example writes its mesh and colour samples and
      then raises on `aG`. */
  lemma LegacyUvExample()
    ensures LegacyRun([UvExampleMesh()], true) ==
      Raised(0, UndefinedName(UNDEFINED_MODULE),
             Archive([UvExampleMesh().sample], Some(GeomParam(RGBA_NAME, [C4fVals([C4f(1.0, 1.0, 1.0, 1.0)])])), None))
  {
    var m := UvExampleMesh();
    UvExampleImports();
    assert [m][..0] == [];
    var c := C4fVals([C4f(1.0, 1.0, 1.0, 1.0)]);
    var none: Option<GeomParam<ColorVals>> := None;
    assert LazyAppend(none, RGBA_NAME, Some(c)) == Some(GeomParam(RGBA_NAME, [] + [c]));
    assert [] + [c] == [c];
  }

  /** The newer combiner, whose UV branch names the module correctly,
      finishes on the same input with a "uvs" parameter holding its UVs. */
  lemma NewerUvExample()
    ensures CombineAbc.Export([UvExampleMesh()], true, true).Done?
    ensures CombineAbc.Export([UvExampleMesh()], true, true).archive.uvs == Some(GeomParam(UVS_NAME, [[V2f(0.5, 0.5)]]))
  {
    var m := UvExampleMesh();
    UvExampleImports();
    var f := Decoded(m.sample, Some(C4fVals([C4f(1.0, 1.0, 1.0, 1.0)])), Some([V2f(0.5, 0.5)]));
    assert [m][..0] == [];
    assert CombineAbc.Imported([m], true, true) == [f];
    assert [f][..0] == [];
    var uv := [V2f(0.5, 0.5)];
    var none: Option<GeomParam<seq<V2f>>> := None;
    assert LazyAppend(none, UVS_NAME, Some(uv)) == Some(GeomParam(UVS_NAME, [] + [uv]));
    assert [] + [uv] == [uv];
    assert CombineAbc.Combine([f]) == CombineAbc.AppendFrame(EMPTY_ARCHIVE, f);
  }

  datatype LegacyMainOutcome = NoInputFiles | Combined(order: seq<string>, outcome: LegacyOutcome)

  /** The legacy driver after discovery: sort the paths, exit when there are
      none, otherwise run `exportABC` over the sorted list. */
  function LegacyMain(found: seq<(string, StoredMesh)>, textures: bool): LegacyMainOutcome
  {
    var sorted := SortByName(found);
    if |sorted| == 0 then NoInputFiles
    else Combined(CombineAbc.Paths(sorted), LegacyRun(CombineAbc.Contents(sorted), textures))
  }

  /** The legacy driver exits on an empty list and otherwise combines every
      discovered path once, in ascending string order: a finished run's k-th
      mesh sample comes from the file at the k-th path, and a run that raises
      does so on a file at a path whose import does not pass, after writing
      only samples of the files before it in that order (and its own). */
  lemma LegacyMainSpec(found: seq<(string, StoredMesh)>, textures: bool)
    ensures LegacyMain(found, textures).NoInputFiles? <==> found == []
    ensures LegacyMain(found, textures).Combined? ==>
      var o := LegacyMain(found, textures);
      && |o.order| == |found|
      && multiset(o.order) == multiset(CombineAbc.Paths(found))
      && (forall i, j :: 0 <= i < j < |o.order| ==> StrLe(o.order[i], o.order[j]))
      && (o.outcome.Finished? ==>
            && |o.outcome.archive.meshSamples| == |o.order|
            && o.outcome.archive.uvs.None?
            && forall k :: 0 <= k < |o.order| ==>
                 (o.order[k], o.outcome.archive.meshSamples[k]) in CombineAbc.SampleOf(found))
      && (o.outcome.Raised? ==>
            && o.outcome.at < |o.order|
            && o.order[o.outcome.at] in Failing(found, textures)
            && |o.outcome.partial.meshSamples| <= o.outcome.at + 1
            && forall k :: 0 <= k < |o.outcome.partial.meshSamples| ==>
                 (o.order[k], o.outcome.partial.meshSamples[k]) in CombineAbc.SampleOf(found))
  {
    var sorted := SortByName(found);
    assert |sorted| == |multiset(sorted)| == |multiset(found)| == |found|;
    CombineAbc.NamesOfPermutation(sorted, found);
    if sorted != [] {
      var contents := CombineAbc.Contents(sorted);
      SortedEntries(found, sorted, textures);
      FinishedArchive(contents, textures);
      LegacyRunRaised(contents, textures);
      RaisedSamples(contents, textures);
    }
  }

  /** Position k of a permutation of the discovered files names a discovered
      file: its sample is that file's, and it fails only if that file fails. */
  lemma SortedEntries(found: seq<(string, StoredMesh)>, sorted: seq<(string, StoredMesh)>, textures: bool)
    requires multiset(sorted) == multiset(found)
    ensures forall k :: 0 <= k < |sorted| ==>
      (CombineAbc.Paths(sorted)[k], CombineAbc.Contents(sorted)[k].sample) in CombineAbc.SampleOf(found)
    ensures forall k :: 0 <= k < |sorted| && !Passes(CombineAbc.Contents(sorted)[k], textures) ==>
      CombineAbc.Paths(sorted)[k] in Failing(found, textures)
  {
    forall k | 0 <= k < |sorted|
      ensures (CombineAbc.Paths(sorted)[k], CombineAbc.Contents(sorted)[k].sample) in CombineAbc.SampleOf(found)
      ensures !Passes(CombineAbc.Contents(sorted)[k], textures) ==> CombineAbc.Paths(sorted)[k] in Failing(found, textures)
    {
      assert sorted[k] in multiset(found);
      assert sorted[k] in found;
    }
  }

  /** The paths of the discovered files whose legacy import does not pass. */
  ghost function Failing(found: seq<(string, StoredMesh)>, textures: bool): set<string>
  {
    set e | e in found && !Passes(e.1, textures) :: e.0
  }
}
