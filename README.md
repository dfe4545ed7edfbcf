# PLY to Alembic conversion, modelled in Dafny

The repository turns a sequence of PLY meshes (one per animation frame) into
one animated Alembic archive, in two stages:

1. `generateTempAbcs` (PLY_to_ABC/Python/PLY_to_ABC.py) probes frame 0 for
   vertex colours and UVs. It switches off a requested channel that frame 0
   lacks. It then writes every frame, numbered 0, 1, 2, … in list order, to an
   intermediate archive `TempFile_<k>.abc` (`writeTempABCFiles`). Each archive
   holds one mesh sample: the points, the face counts and the face indices,
   each face reversed to fix the winding. It also holds one "rgba" and one
   "uvs" sample when those channels are on.
2. The combiner (PLY_to_ABC/Python/combine_ABC.py) sorts the intermediate
   paths and reads each one back (`importABC`). It then appends each
   input as the next sample of one output mesh (`exportABC`). The colour and
   UV parameters are each created lazily, on the first input that carries
   that channel. An older combiner, PLY_to_ABC/combine_ABC.py, does the same
   with a different importer. Its UV branch refers to an undefined name.

The model replaces the libraries (plyfile, PyAlembic) by plain data:
- a parsed PLY frame is a list of vertices (ordered named fields) plus a list of faces;
- an output archive is a record of mesh samples, an optional colour parameter and an optional UV parameter;
- an archive being read back is its first mesh sample, its arbitrary geometry parameters in creation order, and its default UV slot.

Exceptions that the source does not catch become `Err` values that end the run.

Modules:
- `Wrappers`: `Option` and `Result`.
- `Abc`: archive, sample and stored-mesh values, and the parameter lookup by name.
- `AbcRead`: the typed readers and the colour decoder chosen by type tag.
- `Ply`: parsed frames and field lookup.
- `Strings`: `str(k)`, Python string order, and `list.sort()`.
- `PlyToAbc`: `writeTempABCFiles`.
- `PlyToAbcBatch`: the probes and `generateTempAbcs`.
- `LazyParam`: the lazily created output parameter.
- `CombineAbc`: the newer combiner.
- `LegacyCombineAbc`: the older combiner.
- `Pipeline`: the PLY route of the newer combiner's `__main__`, end to end.

Loops are modelled as methods proved equal to a specification function, and the properties are proved as lemmas about that function:
- `FaceLists`, `VertexLoop`, `WriteFrames`, `GenerateTempAbcs`;
- `ImportAbc`, `ExportAbc`, `LegacyExportAbc`.

## Model

| member | source | states |
|---|---|---|
| Ply.Field | PLY_to_ABC/Python/PLY_to_ABC.py:119-121 | `vertex['red']`: the value of a field with that name, and `NoSuchField` exactly when no field has it |
| Ply.Positional | PLY_to_ABC/Python/PLY_to_ABC.py:115 | `vertex[k]`: the k-th field's value, an error when the vertex has at most k fields |
| PlyToAbc.FaceLists | PLY_to_ABC/Python/PLY_to_ABC.py:94-103 | the face loop yields one count per face, count i being the length of face i, and the indices are the concatenation of every face reversed |
| PlyToAbc.SumOfCounts | PLY_to_ABC/Python/PLY_to_ABC.py:96-103 | the face counts add up to the length of the face-index list |
| PlyToAbc.FaceSlice | PLY_to_ABC/Python/PLY_to_ABC.py:101-103 | the slice of the index list that starts at the sum of the earlier counts, of length count i, is face i reversed |
| PlyToAbc.FacesRoundTrip | PLY_to_ABC/Python/PLY_to_ABC.py:94-103 | regrouping the index list by the counts and reversing each group gives back the original face list |
| PlyToAbc.ReadPoint | PLY_to_ABC/Python/PLY_to_ABC.py:115 | a point is the vertex's first three field values, and the read fails exactly when the vertex has fewer than three fields |
| PlyToAbc.ReadColor | PLY_to_ABC/Python/PLY_to_ABC.py:118-123 | a colour has r, g, b equal to the "red", "green", "blue" fields divided by 255 and alpha 1; it fails exactly when one of those fields is missing |
| PlyToAbc.ReadUv | PLY_to_ABC/Python/PLY_to_ABC.py:125-129 | a UV is the ("u", "v") field pair, and it fails exactly when either is missing |
| PlyToAbc.ReadVertex | PLY_to_ABC/Python/PLY_to_ABC.py:113-129 | one vertex contributes its point, a colour only when colours are on, and a UV only when textures are on; it fails exactly when a needed read fails |
| PlyToAbc.VertexLoop | PLY_to_ABC/Python/PLY_to_ABC.py:110-129 | the vertex loop computes the vertex-list specification, stopping at the first vertex that raises |
| PlyToAbc.ReadVerticesOk | PLY_to_ABC/Python/PLY_to_ABC.py:113-129 | the vertex lists are built exactly when every vertex can be read with the current flags |
| PlyToAbc.ReadVerticesLists | PLY_to_ABC/Python/PLY_to_ABC.py:110-129 | the point list has one entry per vertex, in order; the colour and UV lists have that length when their flag is on and are empty when it is off |
| PlyToAbc.PointsList | PLY_to_ABC/Python/PLY_to_ABC.py:113-116 | point i is the point read from vertex i |
| PlyToAbc.RgbaList | PLY_to_ABC/Python/PLY_to_ABC.py:118-123 | with colours on, colour i is the colour read from vertex i; with colours off the list is empty |
| PlyToAbc.UvList | PLY_to_ABC/Python/PLY_to_ABC.py:125-129 | with textures on, UV i is the UV read from vertex i; with textures off the list is empty |
| PlyToAbc.ReadVerticesError | PLY_to_ABC/Python/PLY_to_ABC.py:113-129 | a failing vertex loop fails with the error of its first unreadable vertex, and every earlier vertex is readable |
| PlyToAbc.AbortedVertexLoop | PLY_to_ABC/Python/PLY_to_ABC.py:113-129 | once a vertex raises, the later vertices do not change the outcome |
| PlyToAbc.SetArray | PLY_to_ABC/Python/PLY_to_ABC.py:74-78 | `setArray` returns a fresh array holding the list's elements in order |
| PlyToAbc.TempNamesDistinct | PLY_to_ABC/Python/PLY_to_ABC.py:150 | different frame indices give different intermediate file names |
| PlyToAbc.TempArchiveShape | PLY_to_ABC/Python/PLY_to_ABC.py:161-182 | an intermediate archive has one mesh sample with one position per vertex, the frame's face counts and reversed indices; it has one "rgba" sample iff colours are on and one "uvs" sample iff textures are on, each vertex-parallel |
| PlyToAbc.WriteTempAbcFile | PLY_to_ABC/Python/PLY_to_ABC.py:65-182 | `writeTempABCFiles` writes the file named `TempFile_<index>.abc` with the archive the specification gives for that frame and those flags |
| PlyToAbcBatch.Gating | PLY_to_ABC/Python/PLY_to_ABC.py:193-207 | the effective colour flag is "requested and vertex 0 of frame 0 has red", and likewise UVs with "u" and "v"; a channel not requested is never probed; a probe of an empty list or of a frame without vertices raises |
| PlyToAbcBatch.WriteAll | PLY_to_ABC/Python/PLY_to_ABC.py:225-228 | the frame loop writes a prefix of the frames, and the frame right after it is one that raises |
| PlyToAbcBatch.WriteAllSpec | PLY_to_ABC/Python/PLY_to_ABC.py:225-228 | file k of the batch is named `TempFile_<k>.abc` and holds frame k's archive |
| PlyToAbcBatch.GenerateSpec | PLY_to_ABC/Python/PLY_to_ABC.py:184-228 | the batch never turns on an unrequested channel; it writes frame k as file k; it reports exactly the first failure (probe or frame) and writes every frame when there is none |
| PlyToAbcBatch.GenerateTempAbcs | PLY_to_ABC/Python/PLY_to_ABC.py:184-228 | `generateTempAbcs` (probe, gate, numbered loop) computes the batch specification |
| PlyToAbcBatch.WriteFrames | PLY_to_ABC/Python/PLY_to_ABC.py:225-228 | the counter loop writes the frames up to the first that raises and reports that frame's error |
| PlyToAbcBatch.WriteAllStep | PLY_to_ABC/Python/PLY_to_ABC.py:226-228 | a frame that writes extends the written list by its own file, named by the current index |
| PlyToAbcBatch.WriteAllStops | PLY_to_ABC/Python/PLY_to_ABC.py:226-227 | a frame that raises ends the loop: nothing after it is written |
| PlyToAbcBatch.StoppedLoop | PLY_to_ABC/Python/PLY_to_ABC.py:226-227 | once the loop has stopped, later frames leave the written list unchanged |
| Strings.NatToString | PLY_to_ABC/Python/PLY_to_ABC.py:150 | `str(k)` is a non-empty string of decimal digits |
| Strings.NatToStringInjective | PLY_to_ABC/Python/PLY_to_ABC.py:150 | distinct numbers have distinct decimal spellings |
| Strings.Insert | PLY_to_ABC/Python/combine_ABC.py:251 | inserting into a sorted list keeps it sorted and adds exactly that entry |
| Strings.SortByName | PLY_to_ABC/Python/combine_ABC.py:251 | `list.sort()` gives a list in ascending path order with exactly the same entries |
| Strings.SortedPositions | PLY_to_ABC/Python/combine_ABC.py:251 | in a sorted list, a strictly smaller path comes earlier |
| Abc.FindProperty | PLY_to_ABC/Python/combine_ABC.py:99-100 | the search over parameter headers finds the first parameter with the name, and finds none exactly when no parameter has it |
| AbcRead.OpenC4c | PLY_to_ABC/Python/combine_ABC.py:87 | the C4c reader succeeds exactly when a parameter of that name exists and holds C4c values, and returns them |
| AbcRead.OpenC4f | PLY_to_ABC/Python/combine_ABC.py:89 | the C4f reader succeeds exactly when a parameter of that name exists and holds C4f values, and returns them |
| AbcRead.OpenV2f | PLY_to_ABC/Python/combine_ABC.py:101-103 | the V2f reader succeeds exactly when a parameter of that name exists and holds V2f values, and returns them |
| AbcRead.ChooseDecoder | PLY_to_ABC/Python/combine_ABC.py:85-91 | `uint8` selects the C4c decoder, `float32` the C4f decoder, and any other tag no decoder, each in both directions |
| AbcRead.DecodeColor | PLY_to_ABC/Python/combine_ABC.py:83-94 | with no parameter at all `getProperty(0)` raises. A `uint8` tag on parameter 0 opens "rgba" with the C4c reader and returns its colours or its error; a `float32` tag does the same with the C4f reader; any other tag gives no colour |
| AbcRead.ColorSample | PLY_to_ABC/Python/combine_ABC.py:156 | `if rgba:` holds exactly for a present, non-empty colour list |
| AbcRead.UvSample | PLY_to_ABC/Python/combine_ABC.py:165 | `if uvs:` holds exactly for a present, non-empty UV list |
| CombineAbc.ImportSpec | PLY_to_ABC/Python/combine_ABC.py:60-110 | `importABC` returns the mesh sample unchanged. Colours off gives no colour; colours on selects the decoder by parameter 0's tag. Textures off gives no UVs; textures on gives the "uvs" parameter when it holds values, else the default UV slot. With both flags off the import always succeeds with the mesh sample alone. It succeeds exactly when the colour decoding succeeds (if requested) and a UV source exists (if requested); otherwise it raises the colour error, or the type mismatch of a non-V2f "uvs", or the missing-UV error |
| CombineAbc.ImportAbc | PLY_to_ABC/Python/combine_ABC.py:60-110 | the colour dispatch, the header-search loop and the fallback compute the import specification |
| CombineAbc.CombineChannels | PLY_to_ABC/Python/combine_ABC.py:143-173 | the export loop is three independent channels: the mesh samples in order, and one lazy parameter per optional channel over that channel's samples alone |
| CombineAbc.CombineSpec | PLY_to_ABC/Python/combine_ABC.py:147-173 | one mesh sample per input in input order. The "rgba" parameter exists iff some input carries colour, and holds exactly those colours in order, so it has at most as many samples as the mesh; the same holds for "uvs", independently |
| CombineAbc.CombineColor | PLY_to_ABC/Python/combine_ABC.py:155-163 | the "rgba" parameter holds exactly the colours of the inputs that carry one, in order; it exists iff some input carries colour, with at most one sample per input |
| CombineAbc.CombineUvs | PLY_to_ABC/Python/combine_ABC.py:164-173 | the "uvs" parameter holds exactly the UVs of the inputs that carry them, in order; it exists iff some input carries UVs, with at most one sample per input |
| CombineAbc.ColorCreatedLazily | PLY_to_ABC/Python/combine_ABC.py:143-163 | after any prefix of the inputs, the colour parameter exists iff an input of that prefix carried colour; once created it is never reset, and its samples only grow |
| CombineAbc.UvsCreatedLazily | PLY_to_ABC/Python/combine_ABC.py:144-173 | the same lazy rule for the UV parameter (`useVuTextures` is always true) |
| CombineAbc.Imported | PLY_to_ABC/Python/combine_ABC.py:147-148 | the decoded inputs are the successful imports of a prefix, and the input after that prefix is one whose import raises |
| CombineAbc.ExportAbc | PLY_to_ABC/Python/combine_ABC.py:114-173 | the export loop, with its `color` and `uvsParam` slots going from None to created, computes the export specification |
| CombineAbc.AppendSamples | PLY_to_ABC/Python/combine_ABC.py:151-173 | one turn of the export loop appends the input's mesh sample, creates the "rgba" and "uvs" parameters on the first input that carries the channel, and appends that input's colour and UVs to them |
| CombineAbc.ImportStops | PLY_to_ABC/Python/combine_ABC.py:147-148 | an input whose import raises ends the export: no later input is read |
| CombineAbc.ImportedStopped | PLY_to_ABC/Python/combine_ABC.py:147-148 | once an import has raised, later inputs do not change what was decoded |
| CombineAbc.ExportSpec | PLY_to_ABC/Python/combine_ABC.py:147-153 | the export completes iff every import succeeds, and then holds exactly one mesh sample per input, each the input's own, in order; an aborted export stops at its first failing input, with one sample per earlier input, each that input's own, in order |
| CombineAbc.CombineMainSpec | PLY_to_ABC/Python/combine_ABC.py:251-262 | an empty list exits without combining. Otherwise the combine order is a sorted permutation of the discovered paths. The run completes exactly when every discovered file imports, and a completed run's k-th sample comes from the file at the k-th path. Otherwise it aborts at a path whose file does not import, having written exactly the samples of the files at the paths before it |
| CombineAbc.NamesOfPermutation | PLY_to_ABC/Python/combine_ABC.py:251 | sorting (path, file) pairs permutes the paths |
| LazyParam.FoldLazyIsReference | PLY_to_ABC/Python/combine_ABC.py:156-163 | the loop's create-on-first-use parameter equals the reference definition: absent when no input supplied the channel, otherwise holding exactly the supplied samples in order |
| LazyParam.PresentEmpty | PLY_to_ABC/Python/combine_ABC.py:156-163 | no sample is kept exactly when no input supplied one |
| LazyParam.PresentCount | PLY_to_ABC/Python/combine_ABC.py:156-163 | the number of kept samples is the number of supplying inputs, at most the number of inputs |
| LazyParam.PresentGrows | PLY_to_ABC/Python/combine_ABC.py:162-163 | samples are only appended: the samples after a prefix are a prefix of the final samples |
| LazyParam.NeverReset | PLY_to_ABC/Python/combine_ABC.py:157-161 | a created parameter stays created, keeps its name and keeps its samples |
| LazyParam.CreatedAtFirstSupplier | PLY_to_ABC/Python/combine_ABC.py:143-161 | after j inputs the parameter exists exactly when one of them supplied the channel |
| LazyParam.LazyShape | PLY_to_ABC/Python/combine_ABC.py:156-163 | after all inputs the parameter exists exactly when some input supplied the channel, and holds at most one sample per input |
| LegacyCombineAbc.LegacyImportSpec | PLY_to_ABC/combine_ABC.py:56-100 | colour is decoded whatever `plyContainsColors` says, by parameter 0's tag alone, for either texture setting: a colour error is the import's error, and a successful import returns the decoded colour. So a file with no parameter cannot be read. UVs are read only with `plyContainsTexture` set, only from "uvs", with no fallback: with textures on the import succeeds exactly when the colour decodes and "uvs" holds V2f values, and otherwise raises the first of those errors |
| LegacyCombineAbc.LegacyColorIgnoresTextures | PLY_to_ABC/combine_ABC.py:56-100 | the decoded colour is the same with `plyContainsTexture` on or off |
| LegacyCombineAbc.LegacyStepSpec | PLY_to_ABC/combine_ABC.py:131-156 | one turn of the legacy loop finishes exactly on an input that imports without UVs, appending its mesh sample; it raises on the import error before writing, or on `aG` after writing the mesh sample; the UV slot is never touched |
| LegacyCombineAbc.LegacyRunFinished | PLY_to_ABC/combine_ABC.py:131-156 | a legacy run finishes iff every input imports without UVs, and then holds one mesh sample per input in order and no UV parameter |
| LegacyCombineAbc.LegacyRunRaised | PLY_to_ABC/combine_ABC.py:131-153 | a legacy run raises at its first input that does not pass: on an import error before that input's mesh sample, or on `aG` just after it |
| LegacyCombineAbc.RaisedSamples | PLY_to_ABC/combine_ABC.py:131-153 | the mesh samples a raised run leaves are those of its first inputs, in input order |
| LegacyCombineAbc.TexturesOffNoNameError | PLY_to_ABC/combine_ABC.py:94-98 | with textures off the run never reaches the undefined name and never creates a UV parameter |
| LegacyCombineAbc.LegacyFinishedIsCombine | PLY_to_ABC/combine_ABC.py:127-147 | a finished legacy run writes the same archive as the newer combiner's loop for the same decoded inputs, so its colour parameter follows the same lazy rule |
| LegacyCombineAbc.LegacyExportAbc | PLY_to_ABC/combine_ABC.py:104-156 | the legacy export loop computes the legacy run specification |
| LegacyCombineAbc.RaisedStays | PLY_to_ABC/combine_ABC.py:131-153 | once an input has raised, later inputs do not change the outcome |
| LegacyCombineAbc.UvExampleImports | PLY_to_ABC/combine_ABC.py:94-98 | both importers read a stored "rgba" and "uvs" pair back as that colour and those UVs |
| LegacyCombineAbc.LegacyUvExample | PLY_to_ABC/combine_ABC.py:153 | one input with UVs: the legacy run writes its mesh and colour samples and then raises on `aG` |
| LegacyCombineAbc.NewerUvExample | PLY_to_ABC/Python/combine_ABC.py:165-173 | the same input: the newer combiner finishes with a "uvs" parameter holding its UVs |
| LegacyCombineAbc.LegacyMainSpec | PLY_to_ABC/combine_ABC.py:190-196 | the legacy driver exits on an empty list. Otherwise the combine order is a sorted permutation of the discovered paths. A finished run's k-th sample comes from the file at the k-th path, with no UV parameter. A raised run stops at a path whose file does not pass, having written only samples of the files at the paths before it, plus its own |
| Pipeline.ReadBack | PLY_to_ABC/Python/PLY_to_ABC.py:161-182 | reading an intermediate archive back with the flags it was written with returns its mesh sample, colours and UVs. The exception is a frame without vertices written with textures on, which raises because the default UV slot is absent |
| Pipeline.ColorlessArchiveFails | PLY_to_ABC/Python/combine_ABC.py:82-89 | an archive written with colours off cannot be imported with colours on. With no parameter the import raises at once; with "uvs" as parameter 0, the float32 tag selects the C4f reader, which finds no "rgba" |
| Pipeline.Found | PLY_to_ABC/Python/combine_ABC.py:239 | the temporary directory holds one file per frame of a batch that did not raise, file k named `TempFile_<k>.abc` |
| Pipeline.FoundSample | PLY_to_ABC/Python/PLY_to_ABC.py:150-182 | file k in the directory carries the mesh sample of frame k's intermediate archive, written with the gated flags |
| Pipeline.TempArchivesSingle | PLY_to_ABC/Python/PLY_to_ABC.py:173-182 | every intermediate archive of a batch has exactly one sample per channel |
| Pipeline.FoundEntry | PLY_to_ABC/Python/combine_ABC.py:238-239 | every file found is `TempFile_<k>.abc` holding frame k's archive, written with the gated flags |
| Pipeline.AllFailAbortsFirst | PLY_to_ABC/Python/combine_ABC.py:147-148 | when every file fails to import, the combiner stops on the first file in sorted order and writes nothing |
| Pipeline.ColorlessFileFails | PLY_to_ABC/Python/combine_ABC.py:238 | after colour was switched off by the probe, every file of the batch fails the combiner's colour import |
| Pipeline.RequestedColorLostAborts | PLY_to_ABC/Python/combine_ABC.py:238 | as written, requesting colour on frames whose frame 0 lacks "red" makes the combiner raise on its first file, writing no sample |
| Pipeline.UvlessArchiveFails | PLY_to_ABC/Python/combine_ABC.py:95-110 | an archive written with textures off has neither a "uvs" parameter nor a default UV slot, so the importer with textures on raises on it, even when its colour reads back |
| Pipeline.RequestedUvsLostAborts | PLY_to_ABC/Python/combine_ABC.py:238 | as written, requesting UVs on frames whose frame 0 lacks "u" or "v" makes the combiner raise `NoUvParam` on its first file, writing no sample (colour, when requested, present in frame 0) |
| Pipeline.AsWrittenIsCorrected | PLY_to_ABC/Python/combine_ABC.py:234-262 | when the probes switch no requested channel off, the program as written and the corrected one are the same run |
| Pipeline.LostColorExample | PLY_to_ABC/Python/combine_ABC.py:238 | a one-frame, position-only example with colour requested: as written it aborts with no parameter to read; with the gated flags it completes |
| Pipeline.LostColorBatch | PLY_to_ABC/Python/PLY_to_ABC.py:193-228 | the batch over that frame switches colour off and writes one file, `TempFile_0.abc`, with no arbitrary parameter at all |
| Pipeline.LostColorAsWritten | PLY_to_ABC/Python/combine_ABC.py:238 | as written, the combiner orders that one file and aborts on it with the empty-parameter-list error, writing nothing |
| Pipeline.CorrectedRunCompletes | PLY_to_ABC/Python/combine_ABC.py:234-262 | with the gated flags, a batch that did not raise is combined completely, one mesh sample per frame; with no frames the driver exits without combining |
| Pipeline.CombinedBefore | PLY_to_ABC/Python/combine_ABC.py:251-262 | for the program as written and for the corrected one alike, frame i's file is combined before frame j's whenever its name is the smaller string, whatever the frame order; when the run completes, the mesh samples at those two places are frame i's and frame j's |
| Pipeline.CombineMainPlaces | PLY_to_ABC/Python/combine_ABC.py:251-262 | whichever flags the combiner reads with, its order is the sorted path list, and a completed run's sample at each place comes from the file at that place |
| Pipeline.SampleAt | PLY_to_ABC/Python/PLY_to_ABC.py:150 | a file in the directory that carries frame i's name carries frame i's mesh sample, because the names are distinct |
| Pipeline.SortedPlaces | PLY_to_ABC/Python/combine_ABC.py:251 | after sorting, the file with the smaller path sits at the smaller position |
| Pipeline.TenSortsBeforeTwo | PLY_to_ABC/Python/PLY_to_ABC.py:150 | with unpadded indices, "TempFile_10.abc" is a smaller string than "TempFile_2.abc" |
| Pipeline.FrameTenBeforeFrameTwo | PLY_to_ABC/Python/combine_ABC.py:251-262 | as written and corrected, with eleven frames or more frame 10 is combined before frame 2, and a completed output holds frame 10's mesh sample before frame 2's, so sample order differs from frame order |
| Pipeline.SingleDigitsKeepFrameOrder | PLY_to_ABC/Python/combine_ABC.py:251-262 | as written and corrected, among frames 0 to 9 the combine order and the order of a completed output's samples are the frame order |

Helper lemmas with no counterpart in the source, used by the proofs above: `PlyToAbc.SumNonNegative`, `PlyToAbc.SumAppend`, `PlyToAbc.FlattenAppend`, `PlyToAbc.ReverseInvolutive`, `Strings.StrLeTotal`, `Strings.StrLeAntisymmetric`, `Strings.StrLeTransitive`, `Pipeline.PrefixThenSmaller`, `LegacyCombineAbc.SortedEntries`, `CombineAbc.SortedEntries`, `CombineAbc.MainCompleted`, `CombineAbc.MainAborted`.

## Left out

- Floating point: positions, colours and UVs are exact reals, so the float32 rounding of `float(...)`, of `/ 255` and of the stored arrays is not modelled. The time sampling (`1/30` s per cycle) is not modelled either.
- Integer width: `int(...)` and the Int32 arrays of face counts and indices are unbounded integers; 32-bit truncation is not modelled.
- Alembic objects: the archive paths, the transform and mesh names (`cube1`, `meshShape1`, `meshShape`) and the time-sampling index are not modelled. Reading takes sample 0 only. A stored mesh is that sample, its parameter list in creation order, and its default UV slot.
- Library behaviour: a typed reader opened on a missing or mistyped parameter, and `getProperty(0)` on an empty parameter list, are modelled as errors. The model does not decide whether the C4f output sample accepts the C4c colours an 8-bit archive decodes to; it keeps them as they are. The PLY route never writes C4c colours, so only archives from elsewhere reach this case.
- PLY parsing: `PlyData.read` is not modelled; a frame is given as parsed data. A field read by name fails when the field is missing (plyfile raises `ValueError`), and a positional read fails past the last field.
- PlyToAbcBatch.Gating: the probes `testForRGBAInPLYFile`/`testForUVsInPLYFile` are evaluated on the parsed frame 0 rather than on a second read of the file. A frame without vertices raises `IndexError`, which the probes do not catch.
- Multiprocessing: the pool in `generateTempAbcs` is never used; the loop is sequential and is modelled so.
- Command line and filesystem are not modelled: argument parsing, `glob`, `os.makedirs`, `shutil.rmtree`, printing and `sys.exit` are out. This includes the `-i abc` branch, the unknown-extension exit and the output file name. The temporary directory is taken to hold exactly the files of the current batch (stale files from earlier runs are out). All its paths share one directory prefix, so they sort by file name.
- Legacy driver: the relative paths that `glob(..., root_dir=...)` returns are opened as they are; the model takes the files as given.
- Dead code: the "online example style" UV branch of the newer `exportABC` cannot run (`useVuTextures` is always true); `print(dir(aU))` in the legacy importer is output only.
- Pipeline.CorrectedRunCompletes: assumes every frame has a vertex when UVs are written. A frame without vertices writes an empty UV list, and the importer then falls back to the default UV slot, which the writer never creates (`Pipeline.ReadBack` states this case).

## Findings

| source | as written | input that shows it | evidently intended | confidence | as-written member | corrected member |
|---|---|---|---|---|---|---|
| PLY_to_ABC/Python/combine_ABC.py:238 | `generateTempAbcs` switches off a requested channel that frame 0 lacks, but only in its own parameters; the combiner still imports with the requested flags | one frame whose only vertex has x, y, z and no colour, run with `-c`: no file has an "rgba" parameter, and `importABC` raises on the first file | combine with the flags the batch actually wrote with | high, not executed | Pipeline.RequestedColorLostAborts | Pipeline.CorrectedRunCompletes |
| PLY_to_ABC/Python/combine_ABC.py:238 | the same local gating for UVs: the combiner still imports with textures on after the batch switched them off | frames whose frame 0 has no "u" field, run with `-t`: no file has a "uvs" parameter or a default UV slot, and `importABC` raises on the first file | combine with the flags the batch actually wrote with | high, not executed | Pipeline.RequestedUvsLostAborts | Pipeline.CorrectedRunCompletes |
| PLY_to_ABC/combine_ABC.py:153 | the UV parameter is created with `aG.GeometryScope`, a module name that is never imported | one input carrying colour and UVs, run with `-t`: the run raises `NameError` after writing that input's mesh and colour samples | `aAG.GeometryScope`, as the newer combiner writes it at PLY_to_ABC/Python/combine_ABC.py:170 | high, not executed | LegacyCombineAbc.LegacyUvExample | LegacyCombineAbc.NewerUvExample |
