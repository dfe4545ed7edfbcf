/** The whole PLY route of PLY_to_ABC/Python/combine_ABC.py: the batch of
    intermediate archives written by `generateTempAbcs`, read back from the
    temporary directory, sorted by path and combined by `exportABC`. */
module Pipeline {
  import opened Wrappers
  import opened Abc
  import opened AbcRead
  import opened Ply
  import opened Strings
  import opened PlyToAbc
  import opened PlyToAbcBatch
  import CombineAbc

  // ---------------------------------------------------------------------
  // Reading an intermediate archive back
  // ---------------------------------------------------------------------

  /** An archive as `writeTempABCFiles` leaves it: one sample per channel. */
  predicate SingleSample(a: Archive)
  {
    && |a.meshSamples| == 1
    && (a.color.Some? ==> |a.color.value.samples| == 1)
    && (a.uvs.Some? ==> |a.uvs.value.samples| == 1)
  }

  function StoredColor(c: ColorVals): StoredVals
  {
    match c
    case C4cVals(x) => C4cStored(x)
    case C4fVals(x) => C4fStored(x)
  }

  /** What the combiner sees when it opens an intermediate archive: its mesh
      sample, the colour parameter then the UV parameter in the order the
      writer created them, and no default UV slot (the writer never sets one). */
  function Reopen(a: Archive): (m: StoredMesh)
    requires SingleSample(a)
  {
    StoredMesh(a.meshSamples[0],
               (if a.color.Some? then [ArbProperty(a.color.value.name, StoredColor(a.color.value.samples[0]))] else [])
               + (if a.uvs.Some? then [ArbProperty(a.uvs.value.name, V2fStored(a.uvs.value.samples[0]))] else []),
               None)
  }

  /** Reading an intermediate archive back with the flags it was written
      with returns what was written: the mesh sample, the colours when
      colours are on, the UVs when textures are on. The one exception is a
      frame without vertices written with textures on: its UV list is empty,
      so the importer falls back to the default UV slot, which does not exist. */
  lemma ReadBack(frame: PlyFrame, colors: bool, textures: bool)
    requires TempArchive(frame, colors, textures).Ok?
    ensures SingleSample(TempArchive(frame, colors, textures).value)
    ensures var a := TempArchive(frame, colors, textures).value;
      CombineAbc.Import(Reopen(a), colors, textures) ==
        if textures && frame.vertices == [] then Err(NoUvParam)
        else Ok(Decoded(a.meshSamples[0],
                        if colors then Some(a.color.value.samples[0]) else None,
                        if textures then Some(a.uvs.value.samples[0]) else None))
  {
    TempArchiveShape(frame, colors, textures);
    var a := TempArchive(frame, colors, textures).value;
    var m := Reopen(a);
    if colors {
      assert m.arb[0].name == RGBA_NAME && m.arb[0].vals.C4fStored?;
      assert FindProperty(m.arb, RGBA_NAME) == Some(0);
    }
    if textures {
      var k := if colors then 1 else 0;
      assert m.arb[k] == ArbProperty(UVS_NAME, V2fStored(a.uvs.value.samples[0]));
      assert RGBA_NAME[0] != UVS_NAME[0];
      assert FindProperty(m.arb, UVS_NAME) == Some(k);
    }
  }

  /** An archive written with colours off has no "rgba" parameter, so the
      importer with colours on raises on it: there is no parameter at all,
      or parameter 0 is the float32 "uvs" and the C4f reader finds no "rgba". */
  lemma ColorlessArchiveFails(frame: PlyFrame, textures: bool, readTextures: bool)
    requires TempArchive(frame, false, textures).Ok?
    ensures SingleSample(TempArchive(frame, false, textures).value)
    ensures CombineAbc.Import(Reopen(TempArchive(frame, false, textures).value), true, readTextures) ==
      if textures then Err(MissingParam(RGBA_NAME)) else Err(NoArbProperty)
  {
    TempArchiveShape(frame, false, textures);
    var m := Reopen(TempArchive(frame, false, textures).value);
    if textures {
      assert RGBA_NAME[0] != UVS_NAME[0];
      assert FindProperty(m.arb, RGBA_NAME).None?;
    }
  }

  // ---------------------------------------------------------------------
  // The run
  // ---------------------------------------------------------------------

  /** `s` is the mesh sample of the intermediate archive of frame k, written
      with the flags the batch gated. */
  predicate SampleOfFrame(frames: seq<PlyFrame>, colors: bool, textures: bool, k: nat, s: MeshSample)
  {
    var b := Generate(frames, colors, textures);
    && k < |frames|
    && TempArchive(frames[k], b.colors, b.textures).Ok?
    && TempArchive(frames[k], b.colors, b.textures).value.meshSamples != []
    && s == TempArchive(frames[k], b.colors, b.textures).value.meshSamples[0]
  }

  /** What the temporary directory holds after a batch that did not raise:
      the files it wrote, as (path, contents) pairs in writing order. */
  function Found(frames: seq<PlyFrame>, colors: bool, textures: bool): (found: seq<(string, StoredMesh)>)
    requires Generate(frames, colors, textures).failure.None?
    ensures |found| == |frames|
    ensures forall k :: 0 <= k < |found| ==> found[k].0 == TempName(k)
  {
    var b := Generate(frames, colors, textures);
    GenerateSpec(frames, colors, textures);
    TempArchivesSingle(frames, b.colors, b.textures);
    seq(|b.written|, k requires 0 <= k < |b.written| => (b.written[k].0, Reopen(b.written[k].1)))
  }

  /** File k in the directory carries frame k's mesh sample. */
  lemma FoundSample(frames: seq<PlyFrame>, colors: bool, textures: bool, k: nat)
    requires Generate(frames, colors, textures).failure.None?
    requires k < |frames|
    ensures SampleOfFrame(frames, colors, textures, k, Found(frames, colors, textures)[k].1.sample)
  {
    var b := Generate(frames, colors, textures);
    GenerateSpec(frames, colors, textures);
    TempArchiveShape(frames[k], b.colors, b.textures);
    assert Found(frames, colors, textures)[k] == (b.written[k].0, Reopen(b.written[k].1));
  }

  lemma TempArchivesSingle(frames: seq<PlyFrame>, colors: bool, textures: bool)
    ensures forall k :: 0 <= k < |WriteAll(frames, colors, textures)| ==>
      SingleSample(WriteAll(frames, colors, textures)[k].1)
  {
    WriteAllSpec(frames, colors, textures);
    forall k | 0 <= k < |WriteAll(frames, colors, textures)|
      ensures SingleSample(WriteAll(frames, colors, textures)[k].1)
    {
      TempArchiveShape(frames[k], colors, textures);
    }
  }

  datatype PipelineOutcome = WriterRaised(error: PlyError) | Ran(main: CombineAbc.MainOutcome)

  /** The `ply` branch of `__main__` as written: the combiner is given the
      flags from the command line, not the ones `generateTempAbcs` switched
      off, because the probe only changes that function's own parameters. */
  function RunAsWritten(frames: seq<PlyFrame>, colors: bool, textures: bool): PipelineOutcome
  {
    var b := Generate(frames, colors, textures);
    if b.failure.Some? then WriterRaised(b.failure.value)
    else Ran(CombineAbc.CombineMain(Found(frames, colors, textures), colors, textures))
  }

  /** The evidently intended run: the combiner reads with the flags the
      batch actually wrote with. */
  function RunCorrected(frames: seq<PlyFrame>, colors: bool, textures: bool): PipelineOutcome
  {
    var b := Generate(frames, colors, textures);
    if b.failure.Some? then WriterRaised(b.failure.value)
    else Ran(CombineAbc.CombineMain(Found(frames, colors, textures), b.colors, b.textures))
  }

  /** When the probes switch nothing off, the program as written and the
      corrected one are the same run. */
  lemma AsWrittenIsCorrected(frames: seq<PlyFrame>, colors: bool, textures: bool)
    requires Generate(frames, colors, textures).colors == colors
    requires Generate(frames, colors, textures).textures == textures
    ensures RunAsWritten(frames, colors, textures) == RunCorrected(frames, colors, textures)
  {
  }

  /** Every file in the directory is the reopened archive of some frame. */
  lemma FoundEntry(frames: seq<PlyFrame>, colors: bool, textures: bool, e: (string, StoredMesh))
    requires Generate(frames, colors, textures).failure.None?
    requires e in Found(frames, colors, textures)
    ensures var b := Generate(frames, colors, textures);
      exists k :: 0 <= k < |frames| && TempArchive(frames[k], b.colors, b.textures).Ok?
        && SingleSample(TempArchive(frames[k], b.colors, b.textures).value)
        && e == (TempName(k), Reopen(TempArchive(frames[k], b.colors, b.textures).value))
  {
    var b := Generate(frames, colors, textures);
    GenerateSpec(frames, colors, textures);
    var found := Found(frames, colors, textures);
    var k :| 0 <= k < |found| && found[k] == e;
    TempArchiveShape(frames[k], b.colors, b.textures);
  }

  /** When every discovered file fails to import, the combiner stops on the
      first file in sorted order, having written nothing. */
  lemma AllFailAbortsFirst(found: seq<(string, StoredMesh)>, colors: bool, textures: bool)
    requires found != []
    requires forall e :: e in found ==> CombineAbc.Import(e.1, colors, textures).Err?
    ensures var o := CombineAbc.CombineMain(found, colors, textures);
      && o.Combined?
      && o.outcome.Aborted? && o.outcome.at == 0 && o.outcome.partial == EMPTY_ARCHIVE
      && exists e :: e in found && CombineAbc.Import(e.1, colors, textures) == Err(o.outcome.error)
  {
    var sorted := SortByName(found);
    assert |sorted| == |multiset(sorted)| == |multiset(found)| == |found|;
    var inputs := CombineAbc.Contents(sorted);
    assert sorted[0] in multiset(found);
    assert CombineAbc.Import(inputs[0], colors, textures).Err?;
    assert |CombineAbc.Imported(inputs, colors, textures)| == 0;
  }

  /** As written, asking for colour on frames whose frame 0 has no "red"
      field ends the run on the first file the combiner opens: the batch
      switched colour off, so no file has an "rgba" parameter, but the
      combiner still decodes colour. */
  lemma RequestedColorLostAborts(frames: seq<PlyFrame>, textures: bool)
    requires frames != [] && !Frame0HasRed(frames)
    requires Generate(frames, true, textures).failure.None?
    ensures RunAsWritten(frames, true, textures).Ran?
    ensures var o := RunAsWritten(frames, true, textures).main;
      && o.Combined?
      && o.outcome.Aborted? && o.outcome.at == 0 && o.outcome.partial == EMPTY_ARCHIVE
      && (o.outcome.error == NoArbProperty || o.outcome.error == MissingParam(RGBA_NAME))
  {
    var found := Found(frames, true, textures);
    forall e | e in found
      ensures CombineAbc.Import(e.1, true, textures) in {Err(NoArbProperty), Err(MissingParam(RGBA_NAME))}
    {
      ColorlessFileFails(frames, textures, e);
    }
    AllFailAbortsFirst(found, true, textures);
  }

  /** One file of a batch that switched colour off fails to import with colour on. */
  lemma ColorlessFileFails(frames: seq<PlyFrame>, textures: bool, e: (string, StoredMesh))
    requires !Frame0HasRed(frames)
    requires Generate(frames, true, textures).failure.None?
    requires e in Found(frames, true, textures)
    ensures CombineAbc.Import(e.1, true, textures) in {Err(NoArbProperty), Err(MissingParam(RGBA_NAME))}
  {
    var b := Generate(frames, true, textures);
    GenerateSpec(frames, true, textures);
    assert !b.colors;
    FoundEntry(frames, true, textures, e);
    var k :| 0 <= k < |frames| && TempArchive(frames[k], b.colors, b.textures).Ok?
      && SingleSample(TempArchive(frames[k], b.colors, b.textures).value)
      && e == (TempName(k), Reopen(TempArchive(frames[k], b.colors, b.textures).value));
    ColorlessArchiveFails(frames[k], b.textures, textures);
  }

  /** An archive written with textures off has no "uvs" parameter and no
      default UV slot, so the importer with textures on raises on it (its
      colour, when written, still reads back). */
  lemma UvlessArchiveFails(frame: PlyFrame, colors: bool)
    requires TempArchive(frame, colors, false).Ok?
    ensures SingleSample(TempArchive(frame, colors, false).value)
    ensures CombineAbc.Import(Reopen(TempArchive(frame, colors, false).value), colors, true) == Err(NoUvParam)
  {
    TempArchiveShape(frame, colors, false);
    var m := Reopen(TempArchive(frame, colors, false).value);
    if colors {
      assert m.arb[0].name == RGBA_NAME && m.arb[0].vals.C4fStored?;
      assert FindProperty(m.arb, RGBA_NAME) == Some(0);
      assert RGBA_NAME[0] != UVS_NAME[0];
    }
    assert FindProperty(m.arb, UVS_NAME).None?;
  }

  /** As written, asking for UVs on frames whose frame 0 has no "u" or "v"
      ends the run on the first file the combiner opens: the batch switched
      UVs off, so no file has a "uvs" parameter, and the default UV slot the
      importer falls back to was never written. (Colour, when requested, is
      taken to be present in frame 0; the case without it is
      `RequestedColorLostAborts`.) */
  lemma RequestedUvsLostAborts(frames: seq<PlyFrame>, colors: bool)
    requires frames != [] && !Frame0HasUv(frames) && (colors ==> Frame0HasRed(frames))
    requires Generate(frames, colors, true).failure.None?
    ensures RunAsWritten(frames, colors, true).Ran?
    ensures var o := RunAsWritten(frames, colors, true).main;
      && o.Combined?
      && o.outcome.Aborted? && o.outcome.at == 0 && o.outcome.partial == EMPTY_ARCHIVE
      && o.outcome.error == NoUvParam
  {
    var b := Generate(frames, colors, true);
    GenerateSpec(frames, colors, true);
    assert b.colors == colors && !b.textures;
    var found := Found(frames, colors, true);
    forall e | e in found
      ensures CombineAbc.Import(e.1, colors, true) == Err(NoUvParam)
    {
      FoundEntry(frames, colors, true, e);
      var k :| 0 <= k < |frames| && TempArchive(frames[k], b.colors, b.textures).Ok?
        && SingleSample(TempArchive(frames[k], b.colors, b.textures).value)
        && e == (TempName(k), Reopen(TempArchive(frames[k], b.colors, b.textures).value));
      UvlessArchiveFails(frames[k], colors);
    }
    AllFailAbortsFirst(found, colors, true);
  }

  /** With the gated flags, a batch that did not raise is always combined
      completely (provided every frame has a vertex when UVs are written):
      one mesh sample per frame, each file's own sample at its sorted place. */
  lemma CorrectedRunCompletes(frames: seq<PlyFrame>, colors: bool, textures: bool)
    requires Generate(frames, colors, textures).failure.None?
    requires Generate(frames, colors, textures).textures ==> forall k :: 0 <= k < |frames| ==> frames[k].vertices != []
    ensures RunCorrected(frames, colors, textures).Ran?
    ensures frames == [] ==> RunCorrected(frames, colors, textures).main.NoInputFiles?
    ensures frames != [] ==>
      var o := RunCorrected(frames, colors, textures).main;
      && o.Combined?
      && o.outcome.Done?
      && |o.outcome.archive.meshSamples| == |frames|
  {
    var b := Generate(frames, colors, textures);
    GenerateSpec(frames, colors, textures);
    var found := Found(frames, colors, textures);
    CombineAbc.CombineMainSpec(found, b.colors, b.textures);
    var sorted := SortByName(found);
    assert |sorted| == |multiset(sorted)| == |multiset(found)| == |found|;
    if frames != [] {
      var inputs := CombineAbc.Contents(sorted);
      forall i | 0 <= i < |inputs| ensures CombineAbc.Import(inputs[i], b.colors, b.textures).Ok? {
        assert sorted[i] in multiset(found);
        FoundEntry(frames, colors, textures, sorted[i]);
        var k :| 0 <= k < |frames| && TempArchive(frames[k], b.colors, b.textures).Ok?
          && SingleSample(TempArchive(frames[k], b.colors, b.textures).value)
          && sorted[i] == (TempName(k), Reopen(TempArchive(frames[k], b.colors, b.textures).value));
        ReadBack(frames[k], b.colors, b.textures);
      }
      CombineAbc.ExportSpec(inputs, b.colors, b.textures);
    }
  }

  // ---------------------------------------------------------------------
  // Combine order is string order
  // ---------------------------------------------------------------------

  /** In the combiner's outcome `o`, the file of frame i comes before the file
      of frame j, and when the run completes, the mesh samples at those two
      positions are the samples of frames i and j. */
  predicate CombinedInOrder(o: CombineAbc.MainOutcome, frames: seq<PlyFrame>, colors: bool, textures: bool,
                            i: nat, j: nat)
  {
    && o.Combined?
    && exists p, q :: 0 <= p < q < |o.order| && o.order[p] == TempName(i) && o.order[q] == TempName(j)
         && (o.outcome.Done? ==>
               && q < |o.outcome.archive.meshSamples|
               && SampleOfFrame(frames, colors, textures, i, o.outcome.archive.meshSamples[p])
               && SampleOfFrame(frames, colors, textures, j, o.outcome.archive.meshSamples[q]))
  }

  /** The combiner reads the file of frame i before the file of frame j
      whenever frame i's name is the smaller string, whatever the frame order
      and whichever flags it reads with: as written and corrected alike. */
  lemma CombinedBefore(frames: seq<PlyFrame>, colors: bool, textures: bool, i: nat, j: nat)
    requires Generate(frames, colors, textures).failure.None?
    requires i < |frames| && j < |frames| && StrLt(TempName(i), TempName(j))
    ensures RunAsWritten(frames, colors, textures).Ran?
    ensures CombinedInOrder(RunAsWritten(frames, colors, textures).main, frames, colors, textures, i, j)
    ensures RunCorrected(frames, colors, textures).Ran?
    ensures CombinedInOrder(RunCorrected(frames, colors, textures).main, frames, colors, textures, i, j)
  {
    var b := Generate(frames, colors, textures);
    var found := Found(frames, colors, textures);
    var p, q := SortedPlaces(found, i, j);
    OrderedUnderFlags(frames, colors, textures, found, colors, textures, i, j, p, q);
    OrderedUnderFlags(frames, colors, textures, found, b.colors, b.textures, i, j, p, q);
    assert RunAsWritten(frames, colors, textures) == Ran(CombineAbc.CombineMain(found, colors, textures));
    assert RunCorrected(frames, colors, textures) == Ran(CombineAbc.CombineMain(found, b.colors, b.textures));
  }

  /** After sorting, a file with the smaller path sits at the smaller position. */
  lemma SortedPlaces<T>(found: seq<(string, T)>, i: nat, j: nat) returns (p: nat, q: nat)
    requires i < |found| && j < |found| && StrLt(found[i].0, found[j].0)
    ensures p < q < |CombineAbc.Paths(SortByName(found))|
    ensures CombineAbc.Paths(SortByName(found))[p] == found[i].0
    ensures CombineAbc.Paths(SortByName(found))[q] == found[j].0
  {
    var sorted := SortByName(found);
    assert |sorted| == |multiset(sorted)| == |multiset(found)| == |found|;
    assert found[i] in multiset(sorted) && found[j] in multiset(sorted);
    p :| 0 <= p < |sorted| && sorted[p] == found[i];
    q :| 0 <= q < |sorted| && sorted[q] == found[j];
    SortedPositions(sorted, p, q);
  }

  /** Whatever flags the combiner reads with, files at sorted positions p and
      q keep their places, and a completed run puts each file's sample there. */
  lemma OrderedUnderFlags(frames: seq<PlyFrame>, colors: bool, textures: bool, found: seq<(string, StoredMesh)>,
                          readColors: bool, readTextures: bool, i: nat, j: nat, p: nat, q: nat)
    requires Generate(frames, colors, textures).failure.None?
    requires found == Found(frames, colors, textures)
    requires i < |frames| && j < |frames|
    requires p < q < |CombineAbc.Paths(SortByName(found))|
    requires CombineAbc.Paths(SortByName(found))[p] == TempName(i)
    requires CombineAbc.Paths(SortByName(found))[q] == TempName(j)
    ensures CombinedInOrder(CombineAbc.CombineMain(found, readColors, readTextures), frames, colors, textures, i, j)
  {
    var o := CombineAbc.CombineMain(found, readColors, readTextures);
    CombineMainPlaces(found, readColors, readTextures, p, q);
    if o.outcome.Done? {
      SampleAt(frames, colors, textures, o.outcome.archive.meshSamples, p, i, o.order[p]);
      SampleAt(frames, colors, textures, o.outcome.archive.meshSamples, q, j, o.order[q]);
    }
    assert 0 <= p < q < |o.order| && o.order[p] == TempName(i) && o.order[q] == TempName(j);
  }

  /** The combine order is the sorted path list whatever the flags, and a
      completed run's samples at two places come from the files at those places. */
  lemma CombineMainPlaces(found: seq<(string, StoredMesh)>, readColors: bool, readTextures: bool, p: nat, q: nat)
    requires p < q < |CombineAbc.Paths(SortByName(found))|
    ensures var o := CombineAbc.CombineMain(found, readColors, readTextures);
      && o.Combined?
      && o.order == CombineAbc.Paths(SortByName(found))
      && (o.outcome.Done? ==>
            && q < |o.outcome.archive.meshSamples|
            && (o.order[p], o.outcome.archive.meshSamples[p]) in CombineAbc.SampleOf(found)
            && (o.order[q], o.outcome.archive.meshSamples[q]) in CombineAbc.SampleOf(found))
  {
    CombineAbc.CombineMainSpec(found, readColors, readTextures);
  }

  /** A (path, sample) pair that comes from the directory and carries frame
      i's name carries frame i's sample: names are distinct. */
  lemma SampleAt(frames: seq<PlyFrame>, colors: bool, textures: bool, samples: seq<MeshSample>, p: nat, i: nat,
                 path: string)
    requires Generate(frames, colors, textures).failure.None?
    requires p < |samples| && path == TempName(i)
    requires (path, samples[p]) in CombineAbc.SampleOf(Found(frames, colors, textures))
    ensures SampleOfFrame(frames, colors, textures, i, samples[p])
  {
    var found := Found(frames, colors, textures);
    var e :| e in found && (e.0, e.1.sample) == (path, samples[p]);
    var k :| 0 <= k < |found| && found[k] == e;
    if k != i {
      TempNamesDistinct(k, i);
    }
    FoundSample(frames, colors, textures, k);
  }

  /** Decimal names are not zero-padded, so "TempFile_10.abc" is the smaller string. */
  lemma TenSortsBeforeTwo()
    ensures StrLt(TempName(10), TempName(2))
  {
    assert NatToString(10) == NatToString(1) + [Digit(0)] == "10";
    assert NatToString(2) == "2";
    var a, b := TempName(10), TempName(2);
    assert a[..9] == b[..9] && a[9] == '1' && b[9] == '2';
    PrefixThenSmaller(a, b, 9);
  }

  /** With eleven frames or more, frame 10 is combined before frame 2, as
      written and corrected: a completed output holds frame 10's sample
      before frame 2's, so sample order differs from frame order. */
  lemma FrameTenBeforeFrameTwo(frames: seq<PlyFrame>, colors: bool, textures: bool)
    requires |frames| >= 11
    requires Generate(frames, colors, textures).failure.None?
    ensures RunAsWritten(frames, colors, textures).Ran?
    ensures CombinedInOrder(RunAsWritten(frames, colors, textures).main, frames, colors, textures, 10, 2)
    ensures RunCorrected(frames, colors, textures).Ran?
    ensures CombinedInOrder(RunCorrected(frames, colors, textures).main, frames, colors, textures, 10, 2)
  {
    TenSortsBeforeTwo();
    CombinedBefore(frames, colors, textures, 10, 2);
  }

  /** Below ten frames every name has one digit, and string order is frame
      order, as written and corrected. */
  lemma SingleDigitsKeepFrameOrder(frames: seq<PlyFrame>, colors: bool, textures: bool, i: nat, j: nat)
    requires Generate(frames, colors, textures).failure.None?
    requires i < j < |frames| && j < 10
    ensures RunAsWritten(frames, colors, textures).Ran?
    ensures CombinedInOrder(RunAsWritten(frames, colors, textures).main, frames, colors, textures, i, j)
    ensures RunCorrected(frames, colors, textures).Ran?
    ensures CombinedInOrder(RunCorrected(frames, colors, textures).main, frames, colors, textures, i, j)
  {
    var a, b := TempName(i), TempName(j);
    assert a == "TempFile_" + [Digit(i)] + ".abc" && b == "TempFile_" + [Digit(j)] + ".abc";
    assert a[9] == Digit(i) < Digit(j) == b[9];
    assert StrLt(a, b) by {
      assert a[..9] == b[..9];
      PrefixThenSmaller(a, b, 9);
    }
    CombinedBefore(frames, colors, textures, i, j);
  }

  /** Strings that agree up to position n and differ there are ordered by that position. */
  lemma {:induction false} PrefixThenSmaller(a: string, b: string, n: nat)
    requires n < |a| && n < |b| && a[..n] == b[..n] && a[n] < b[n]
    ensures StrLt(a, b)
    decreases n
  {
    if n > 0 {
      assert a[1..][..n - 1] == b[1..][..n - 1];
      PrefixThenSmaller(a[1..], b[1..], n - 1);
      assert a[0] == b[0];
    }
  }

  /** A concrete run that exhibits the discrepancy: one frame whose single
      vertex has positions only, colour requested. As written the combiner
      raises on the only file; with the gated flags it writes its sample. */
  lemma LostColorExample()
    ensures RunAsWritten(LOST_COLOR_FRAMES, true, false)
         == Ran(CombineAbc.Combined([TempName(0)], CombineAbc.Aborted(0, NoArbProperty, EMPTY_ARCHIVE)))
    ensures RunCorrected(LOST_COLOR_FRAMES, true, false).Ran?
    ensures RunCorrected(LOST_COLOR_FRAMES, true, false).main.Combined?
    ensures RunCorrected(LOST_COLOR_FRAMES, true, false).main.outcome.Done?
  {
    LostColorAsWritten();
    LostColorBatch();
    CorrectedRunCompletes(LOST_COLOR_FRAMES, true, false);
  }

  lemma LostColorAsWritten()
    ensures RunAsWritten(LOST_COLOR_FRAMES, true, false)
         == Ran(CombineAbc.Combined([TempName(0)], CombineAbc.Aborted(0, NoArbProperty, EMPTY_ARCHIVE)))
  {
    LostColorBatch();
    var found := Found(LOST_COLOR_FRAMES, true, false);
    assert SortByName(found) == found;
    var inputs := CombineAbc.Contents(found);
    assert CombineAbc.Import(inputs[0], true, false) == Err(NoArbProperty);
    assert CombineAbc.Imported(inputs, true, false) == [];
    assert CombineAbc.Paths(found) == [TempName(0)];
  }

  /** One frame whose only vertex has a position and nothing else. */
  const LOST_COLOR_FRAMES: seq<PlyFrame> :=
    [PlyFrame([PlyVertex([PlyField("x", 0.0), PlyField("y", 0.0), PlyField("z", 0.0)])], [])]

  /** The batch over that frame switches colour off and writes one file with
      no arbitrary parameter at all. */
  lemma LostColorBatch()
    ensures !Frame0HasRed(LOST_COLOR_FRAMES)
    ensures Generate(LOST_COLOR_FRAMES, true, false).failure.None?
    ensures |Found(LOST_COLOR_FRAMES, true, false)| == 1
    ensures Found(LOST_COLOR_FRAMES, true, false)[0].0 == TempName(0)
    ensures Found(LOST_COLOR_FRAMES, true, false)[0].1.arb == []
  {
    var frames := LOST_COLOR_FRAMES;
    assert Field(frames[0].vertices[0], "red").Err?;
    assert Gating(frames, true, false) == Ok((false, false));
    assert ReadVertices(frames[0].vertices, false, false).Ok?;
    assert WriteAll(frames, false, false) == [(TempName(0), TempArchive(frames[0], false, false).value)];
  }
}
