/** The data the Alembic archives hold, with the foreign library objects
    replaced by plain values. Floating-point fields are carried as exact
    `real`s; float32 rounding is not modelled. */
module Abc {
  import opened Wrappers

  /** `imath.V3f`, a position. */
  datatype V3f = V3f(x: real, y: real, z: real)

  /** `imath.V2f`, a texture coordinate. */
  datatype V2f = V2f(u: real, v: real)

  /** `imath.C4f`, a floating-point colour. */
  datatype C4f = C4f(r: real, g: real, b: real, a: real)

  /** `imath.C4c`, an 8-bit colour. */
  datatype C4c = C4c(r: int, g: int, b: int, a: int)

  /** One time sample of a poly mesh: `OPolyMeshSchemaSample(points, faceIndices, faceCounts)`. */
  datatype MeshSample = MeshSample(positions: seq<V3f>, faceIndices: seq<int>, faceCounts: seq<int>)

  /** Colour values as the importer decodes them: the C4c decoder yields
      8-bit colours, the C4f decoder floating-point ones. */
  datatype ColorVals = C4cVals(c: seq<C4c>) | C4fVals(f: seq<C4f>)

  /** The number of colours a decoded colour array holds (Python's `len`). */
  function ColorCount(c: ColorVals): nat
  {
    match c
    case C4cVals(s) => |s|
    case C4fVals(s) => |s|
  }

  /** A vertex-scope geometry parameter of the output mesh: its name and the
      samples appended to it with `set`, in order. */
  datatype GeomParam<T> = GeomParam(name: string, samples: seq<T>)

  /** An output archive with its one mesh object: the mesh's samples, and the
      optional colour and UV parameters, each with its own samples. */
  datatype Archive = Archive(
    meshSamples: seq<MeshSample>,
    color: Option<GeomParam<ColorVals>>,
    uvs: Option<GeomParam<seq<V2f>>>)

  const EMPTY_ARCHIVE: Archive := Archive([], None, None)

  /** The reserved parameter names consumers look up. */
  const RGBA_NAME: string := "rgba"
  const UVS_NAME: string := "uvs"

  /** The element type tag (`POD`) of a stored property. */
  datatype Pod = Uint8Pod | Float32Pod | OtherPod(code: int)

  /** The first sample of a stored arbitrary geometry parameter: colours,
      texture coordinates, or anything else (with its own tag). */
  datatype StoredVals = C4cStored(c: seq<C4c>) | C4fStored(f: seq<C4f>) | V2fStored(uv: seq<V2f>)
                      | OtherStored(tag: Pod)

  /** The tag `getDataType().getPod()` reports for a stored parameter. */
  function PodOf(v: StoredVals): Pod
  {
    match v
    case C4cStored(_) => Uint8Pod
    case C4fStored(_) => Float32Pod
    case V2fStored(_) => Float32Pod
    case OtherStored(t) => t
  }

  datatype ArbProperty = ArbProperty(name: string, vals: StoredVals)

  /** What an importer sees when it opens an archive: the first mesh sample,
      the mesh's arbitrary geometry parameters in creation order, and the
      mesh's default UV slot (`getUVsParam`), absent when never written. */
  datatype StoredMesh = StoredMesh(sample: MeshSample, arb: seq<ArbProperty>, defaultUvs: Option<seq<V2f>>)

  /** Index of the first arbitrary parameter called `name`, if any. */
  function FindProperty(arb: seq<ArbProperty>, name: string): (r: Option<nat>)
    ensures r.Some? ==> r.value < |arb| && arb[r.value].name == name
                        && forall j :: 0 <= j < r.value ==> arb[j].name != name
    ensures r.None? <==> forall j :: 0 <= j < |arb| ==> arb[j].name != name
  {
    if arb == [] then None
    else if arb[0].name == name then Some(0)
    else match FindProperty(arb[1..], name)
      case None => None
      case Some(k) => Some(k + 1)
  }
}

/** How the library's typed readers behave on a stored mesh: opening a
    parameter by name fails when no parameter has that name or when its
    element type does not match the reader. */
module AbcRead {
  import opened Wrappers
  import opened Abc

  datatype ReadError =
    | NoArbProperty               // `arb.getProperty(0)` with no parameter at all
    | MissingParam(name: string)  // a typed reader opened on a name that is not there
    | ParamTypeMismatch(name: string)  // a typed reader opened on a parameter of another type
    | NoUvParam                   // `mesh.getUVsParam()` read when the mesh has none

  /** `IC4cGeomParam(arb, name)` followed by reading sample 0. */
  function OpenC4c(arb: seq<ArbProperty>, name: string): (r: Result<seq<C4c>, ReadError>)
    ensures r.Ok? <==> FindProperty(arb, name).Some? && arb[FindProperty(arb, name).value].vals.C4cStored?
    ensures r.Ok? ==> r.value == arb[FindProperty(arb, name).value].vals.c
  {
    match FindProperty(arb, name)
    case None => Err(MissingParam(name))
    case Some(k) => if arb[k].vals.C4cStored? then Ok(arb[k].vals.c) else Err(ParamTypeMismatch(name))
  }

  /** `IC4fGeomParam(arb, name)` followed by reading sample 0. */
  function OpenC4f(arb: seq<ArbProperty>, name: string): (r: Result<seq<C4f>, ReadError>)
    ensures r.Ok? <==> FindProperty(arb, name).Some? && arb[FindProperty(arb, name).value].vals.C4fStored?
    ensures r.Ok? ==> r.value == arb[FindProperty(arb, name).value].vals.f
  {
    match FindProperty(arb, name)
    case None => Err(MissingParam(name))
    case Some(k) => if arb[k].vals.C4fStored? then Ok(arb[k].vals.f) else Err(ParamTypeMismatch(name))
  }

  /** `IV2fGeomParam(arb, name)` followed by reading sample 0. */
  function OpenV2f(arb: seq<ArbProperty>, name: string): (r: Result<seq<V2f>, ReadError>)
    ensures r.Ok? <==> FindProperty(arb, name).Some? && arb[FindProperty(arb, name).value].vals.V2fStored?
    ensures r.Ok? ==> r.value == arb[FindProperty(arb, name).value].vals.uv
  {
    match FindProperty(arb, name)
    case None => Err(MissingParam(name))
    case Some(k) => if arb[k].vals.V2fStored? then Ok(arb[k].vals.uv) else Err(ParamTypeMismatch(name))
  }

  /** The colour decoder chosen from the type tag of parameter 0. */
  datatype ColorDecoder = C4cDecoder | C4fDecoder | NoDecoder

  /** `uint8` selects the C4c decoder, `float32` the C4f decoder, any other tag none. */
  function ChooseDecoder(p: Pod): (d: ColorDecoder)
    ensures d == C4cDecoder <==> p == Uint8Pod
    ensures d == C4fDecoder <==> p == Float32Pod
    ensures d == NoDecoder <==> p.OtherPod?
  {
    match p
    case Uint8Pod => C4cDecoder
    case Float32Pod => C4fDecoder
    case OtherPod(_) => NoDecoder
  }

  /** The colour branch both importers share: the decoder follows parameter
      0's tag, and the decoder then opens the parameter named "rgba". */
  function DecodeColor(arb: seq<ArbProperty>): (r: Result<Option<ColorVals>, ReadError>)
    ensures arb == [] ==> r == Err(NoArbProperty)
    ensures r.Ok? && r.value.Some? ==> arb != [] && FindProperty(arb, RGBA_NAME).Some?
    ensures r.Ok? && r.value.Some? && r.value.value.C4cVals? ==> PodOf(arb[0].vals) == Uint8Pod
    ensures r.Ok? && r.value.Some? && r.value.value.C4fVals? ==> PodOf(arb[0].vals) == Float32Pod
    ensures arb != [] && PodOf(arb[0].vals).OtherPod? ==> r == Ok(None)
    ensures arb != [] && PodOf(arb[0].vals) == Uint8Pod ==>
      r == (if OpenC4c(arb, RGBA_NAME).Ok? then Ok(Some(C4cVals(OpenC4c(arb, RGBA_NAME).value)))
            else Err(OpenC4c(arb, RGBA_NAME).error))
    ensures arb != [] && PodOf(arb[0].vals) == Float32Pod ==>
      r == (if OpenC4f(arb, RGBA_NAME).Ok? then Ok(Some(C4fVals(OpenC4f(arb, RGBA_NAME).value)))
            else Err(OpenC4f(arb, RGBA_NAME).error))
  {
    if arb == [] then Err(NoArbProperty)
    else
      match ChooseDecoder(PodOf(arb[0].vals))
      case NoDecoder => Ok(None)
      case C4cDecoder =>
        (match OpenC4c(arb, RGBA_NAME)
         case Err(e) => Err(e)
         case Ok(c) => Ok(Some(C4cVals(c))))
      case C4fDecoder =>
        (match OpenC4f(arb, RGBA_NAME)
         case Err(e) => Err(e)
         case Ok(f) => Ok(Some(C4fVals(f))))
  }

  /** What an importer returns: `(points, faceCounts, faceIndices, rgba, uvs)`. */
  datatype Decoded = Decoded(sample: MeshSample, rgba: Option<ColorVals>, uvs: Option<seq<V2f>>)

  /** Python's `if rgba:` — present and non-empty. */
  function ColorSample(f: Decoded): (r: Option<ColorVals>)
    ensures r.Some? <==> f.rgba.Some? && ColorCount(f.rgba.value) > 0
    ensures r.Some? ==> r == f.rgba
  {
    if f.rgba.Some? && ColorCount(f.rgba.value) > 0 then f.rgba else None
  }

  /** Python's `if uvs:` — present and non-empty. */
  function UvSample(f: Decoded): (r: Option<seq<V2f>>)
    ensures r.Some? <==> f.uvs.Some? && |f.uvs.value| > 0
    ensures r.Some? ==> r == f.uvs
  {
    if f.uvs.Some? && |f.uvs.value| > 0 then f.uvs else None
  }
}
