/** A parsed PLY frame, as `PlyData.read` hands it over: vertex records made
    of named scalar fields, and a face list of variable-length index groups.
    Parsing itself is not part of this model. */
module Ply {
  import opened Wrappers

  /** One named scalar of a vertex record, already converted with `float`. */
  datatype PlyField = PlyField(name: string, value: real)

  /** One `plydata['vertex'][i]` record: its fields in declaration order. */
  datatype PlyVertex = PlyVertex(fields: seq<PlyField>)

  /** A parsed frame: the vertex element and the `vertex_indices` of the face element. */
  datatype PlyFrame = PlyFrame(vertices: seq<PlyVertex>, faces: seq<seq<int>>)

  /** The exceptions reading a parsed frame can raise. */
  datatype PlyError =
    | NoSuchField(name: string)      // numpy's ValueError: no field of that name
    | NoSuchPosition(index: nat)     // IndexError from a positional `vertex[k]`
    | NoVertex                       // IndexError from `plydata['vertex'][0]`
    | NoFrame                        // IndexError from `inputPlyFilenames[0]`

  /** `vertex[name]`: the first field of that name, or numpy's ValueError. */
  function Field(v: PlyVertex, name: string): (r: Result<real, PlyError>)
    ensures r.Ok? <==> exists k :: 0 <= k < |v.fields| && v.fields[k].name == name
    ensures r.Ok? ==> exists k :: 0 <= k < |v.fields| && v.fields[k] == PlyField(name, r.value)
    ensures r.Err? ==> r.error == NoSuchField(name)
    decreases |v.fields|
  {
    if v.fields == [] then Err(NoSuchField(name))
    else if v.fields[0].name == name then Ok(v.fields[0].value)
    else
      var rest := Field(PlyVertex(v.fields[1..]), name);
      assert forall k :: 1 <= k < |v.fields| ==> v.fields[k] == v.fields[1..][k - 1];
      rest
  }

  /** `vertex[k]`: the k-th field's value, or IndexError. */
  function Positional(v: PlyVertex, k: nat): (r: Result<real, PlyError>)
    ensures r.Ok? <==> k < |v.fields|
    ensures r.Ok? ==> r.value == v.fields[k].value
    ensures r.Err? ==> r.error == NoSuchPosition(k)
  {
    if k < |v.fields| then Ok(v.fields[k].value) else Err(NoSuchPosition(k))
  }
}
