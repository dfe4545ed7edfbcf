/** The per-frame step: one parsed PLY frame becomes one intermediate archive
    holding exactly one sample (`writeTempABCFiles`), and the batch driver
    that probes frame 0, gates the colour and UV channels, and numbers the
    frames (`generateTempAbcs`). */
module PlyToAbc {
  import opened Wrappers
  import opened Abc
  import opened Ply
  import opened Strings

  // ---------------------------------------------------------------------
  // Topology: face counts and reversed, flattened face indices
  // ---------------------------------------------------------------------

  /** A face's indices in reverse order: the winding fix. */
  function Reverse(s: seq<int>): (r: seq<int>)
  {
    seq(|s|, k requires 0 <= k < |s| => s[|s| - 1 - k])
  }

  /** `faceCountList`: one vertex count per face. */
  function FaceCounts(faces: seq<seq<int>>): (r: seq<int>)
  {
    seq(|faces|, i requires 0 <= i < |faces| => |faces[i]|)
  }

  /** `faceIndicesList`: every face's indices, reversed, one face after another. */
  function FlattenReversed(faces: seq<seq<int>>): seq<int>
  {
    if faces == [] then []
    else FlattenReversed(faces[..|faces| - 1]) + Reverse(faces[|faces| - 1])
  }

  function Sum(s: seq<int>): int
  {
    if s == [] then 0 else s[0] + Sum(s[1..])
  }

  /** Where face i's group starts in the flat index list. */
  function Offset(faces: seq<seq<int>>, i: nat): int
    requires i <= |faces|
  {
    Sum(FaceCounts(faces)[..i])
  }

  lemma ReverseInvolutive(s: seq<int>)
    ensures Reverse(Reverse(s)) == s
  {
  }

  lemma {:induction false} FlattenAppend(a: seq<seq<int>>, b: seq<seq<int>>)
    ensures FlattenReversed(a + b) == FlattenReversed(a) + FlattenReversed(b)
    decreases |b|
  {
    if b == [] {
      assert a + b == a;
    } else {
      var n := |b| - 1;
      assert (a + b)[..|a + b| - 1] == a + b[..n];
      assert (a + b)[|a + b| - 1] == b[n];
      FlattenAppend(a, b[..n]);
    }
  }

  lemma {:induction false} SumAppend(a: seq<int>, b: seq<int>)
    ensures Sum(a + b) == Sum(a) + Sum(b)
    decreases |a|
  {
    if a == [] {
      assert a + b == b;
    } else {
      assert (a + b)[1..] == a[1..] + b;
      SumAppend(a[1..], b);
    }
  }

  /** The counts add up to the length of the flat index list. */
  lemma {:induction false} SumOfCounts(faces: seq<seq<int>>)
    ensures Sum(FaceCounts(faces)) == |FlattenReversed(faces)|
    decreases |faces|
  {
    if faces != [] {
      var n := |faces| - 1;
      assert FaceCounts(faces) == FaceCounts(faces[..n]) + [|faces[n]|];
      SumAppend(FaceCounts(faces[..n]), [|faces[n]|]);
      assert Sum([|faces[n]|]) == |faces[n]|;
      SumOfCounts(faces[..n]);
    }
  }

  /** Face i's group in the flat list is face i reversed. */
  lemma FaceSlice(faces: seq<seq<int>>, i: nat)
    requires i < |faces|
    ensures 0 <= Offset(faces, i) && Offset(faces, i) + |faces[i]| <= |FlattenReversed(faces)|
    ensures FlattenReversed(faces)[Offset(faces, i)..Offset(faces, i) + |faces[i]|] == Reverse(faces[i])
  {
    var pre, rest := faces[..i], faces[i + 1..];
    assert faces == pre + [faces[i]] + rest;
    FlattenAppend(pre + [faces[i]], rest);
    FlattenAppend(pre, [faces[i]]);
    assert FlattenReversed([faces[i]]) == Reverse(faces[i]) by {
      assert [faces[i]][..0] == [];
    }
    assert FaceCounts(faces)[..i] == FaceCounts(pre);
    SumOfCounts(pre);
  }

  /** Splits a flat list into groups of the given sizes (the reader's view of
      `faceCounts` and `faceIndices`). */
  function Regroup(counts: seq<nat>, flat: seq<int>): seq<seq<int>>
    requires Sum(counts) == |flat|
  {
    if counts == [] then []
    else
      assert counts[0] <= |flat| by { SumNonNegative(counts[1..]); }
      [flat[..counts[0]]] + Regroup(counts[1..], flat[counts[0]..])
  }

  lemma {:induction false} SumNonNegative(s: seq<nat>)
    ensures Sum(s) >= 0
  {
    if s != [] { SumNonNegative(s[1..]); }
  }

  function ReverseEach(groups: seq<seq<int>>): (r: seq<seq<int>>)
  {
    seq(|groups|, i requires 0 <= i < |groups| => Reverse(groups[i]))
  }

  /** Regrouping the flat list by the counts and reversing each group gives
      back the source face list. */
  lemma {:induction false} FacesRoundTrip(faces: seq<seq<int>>)
    ensures Sum(FaceCounts(faces)) == |FlattenReversed(faces)|
    ensures ReverseEach(Regroup(FaceCounts(faces), FlattenReversed(faces))) == faces
    decreases |faces|
  {
    SumOfCounts(faces);
    if faces != [] {
      var rest := faces[1..];
      FirstFace(faces);
      var flat := FlattenReversed(faces);
      assert flat[..|faces[0]|] == Reverse(faces[0]);
      assert flat[|faces[0]|..] == FlattenReversed(rest);
      FacesRoundTrip(rest);
      ReverseInvolutive(faces[0]);
      var g := Regroup(FaceCounts(faces), flat);
      assert g == [Reverse(faces[0])] + Regroup(FaceCounts(rest), FlattenReversed(rest));
      assert ReverseEach(g)[0] == faces[0];
      assert forall i :: 1 <= i < |faces| ==> ReverseEach(g)[i] == ReverseEach(g[1..])[i - 1];
    }
  }

  /** The first face's group leads the flat list, and its count leads the counts. */
  lemma FirstFace(faces: seq<seq<int>>)
    requires faces != []
    ensures FlattenReversed(faces) == Reverse(faces[0]) + FlattenReversed(faces[1..])
    ensures FaceCounts(faces) == [|faces[0]|] + FaceCounts(faces[1..])
  {
    assert faces == [faces[0]] + faces[1..];
    FlattenAppend([faces[0]], faces[1..]);
    assert FlattenReversed([faces[0]]) == Reverse(faces[0]) by {
      assert [faces[0]][..0] == [];
    }
  }

  // ---------------------------------------------------------------------
  // Vertex data: points, colours, texture coordinates
  // ---------------------------------------------------------------------

  /** `V3f(vertex[0], vertex[1], vertex[2])`: the first three fields, by position. */
  function ReadPoint(v: PlyVertex): (r: Result<V3f, PlyError>)
    ensures r.Ok? <==> 3 <= |v.fields|
    ensures r.Ok? ==> r.value == V3f(v.fields[0].value, v.fields[1].value, v.fields[2].value)
  {
    match Positional(v, 0)
    case Err(e) => Err(e)
    case Ok(x) =>
      match Positional(v, 1)
      case Err(e) => Err(e)
      case Ok(y) =>
        match Positional(v, 2)
        case Err(e) => Err(e)
        case Ok(z) => Ok(V3f(x, y, z))
  }

  /** `C4f(red / 255, green / 255, blue / 255, 1.0)`. */
  function ReadColor(v: PlyVertex): (r: Result<C4f, PlyError>)
    ensures r.Ok? <==> Field(v, "red").Ok? && Field(v, "green").Ok? && Field(v, "blue").Ok?
    ensures r.Ok? ==> r.value.a == 1.0
                      && r.value.r == Field(v, "red").value / 255.0
                      && r.value.g == Field(v, "green").value / 255.0
                      && r.value.b == Field(v, "blue").value / 255.0
  {
    match Field(v, "red")
    case Err(e) => Err(e)
    case Ok(red) =>
      match Field(v, "green")
      case Err(e) => Err(e)
      case Ok(green) =>
        match Field(v, "blue")
        case Err(e) => Err(e)
        case Ok(blue) => Ok(C4f(red / 255.0, green / 255.0, blue / 255.0, 1.0))
  }

  /** `V2f(vertex['u'], vertex['v'])`. */
  function ReadUv(v: PlyVertex): (r: Result<V2f, PlyError>)
    ensures r.Ok? <==> Field(v, "u").Ok? && Field(v, "v").Ok?
    ensures r.Ok? ==> r.value == V2f(Field(v, "u").value, Field(v, "v").value)
  {
    match Field(v, "u")
    case Err(e) => Err(e)
    case Ok(u) =>
      match Field(v, "v")
      case Err(e) => Err(e)
      case Ok(w) => Ok(V2f(u, w))
  }

  /** What one turn of the vertex loop appends: a point, and a colour and a
      texture coordinate when their channel is on. */
  datatype VertexRow = VertexRow(point: V3f, color: seq<C4f>, uv: seq<V2f>)

  function ReadVertex(v: PlyVertex, colors: bool, textures: bool): (r: Result<VertexRow, PlyError>)
    ensures r.Ok? <==> ReadPoint(v).Ok? && (colors ==> ReadColor(v).Ok?) && (textures ==> ReadUv(v).Ok?)
    ensures r.Ok? ==> Ok(r.value.point) == ReadPoint(v)
    ensures r.Ok? ==> r.value.color == (if colors then [ReadColor(v).value] else [])
    ensures r.Ok? ==> r.value.uv == (if textures then [ReadUv(v).value] else [])
  {
    match ReadPoint(v)
    case Err(e) => Err(e)
    case Ok(p) =>
      if colors && ReadColor(v).Err? then Err(ReadColor(v).error)
      else if textures && ReadUv(v).Err? then Err(ReadUv(v).error)
      else
        Ok(VertexRow(p, if colors then [ReadColor(v).value] else [],
                        if textures then [ReadUv(v).value] else []))
  }

  /** The three vertex-parallel lists the loop builds. */
  datatype VertexLists = VertexLists(points: seq<V3f>, rgba: seq<C4f>, uvs: seq<V2f>)

  /** The vertex loop, vertex by vertex; the first vertex that raises ends it. */
  function ReadVertices(vs: seq<PlyVertex>, colors: bool, textures: bool): Result<VertexLists, PlyError>
  {
    if vs == [] then Ok(VertexLists([], [], []))
    else
      match ReadVertices(vs[..|vs| - 1], colors, textures)
      case Err(e) => Err(e)
      case Ok(acc) =>
        match ReadVertex(vs[|vs| - 1], colors, textures)
        case Err(e) => Err(e)
        case Ok(row) => Ok(VertexLists(acc.points + [row.point], acc.rgba + row.color, acc.uvs + row.uv))
  }

  /** The loop completes exactly when no vertex raises. */
  lemma {:induction false} ReadVerticesOk(vs: seq<PlyVertex>, colors: bool, textures: bool)
    ensures ReadVertices(vs, colors, textures).Ok? <==>
            forall i :: 0 <= i < |vs| ==> ReadVertex(vs[i], colors, textures).Ok?
    decreases |vs|
  {
    if vs != [] {
      var n := |vs| - 1;
      ReadVerticesOk(vs[..n], colors, textures);
      assert forall i :: 0 <= i < n ==> vs[..n][i] == vs[i];
    }
  }

  /** When it completes, the point list is vertex-parallel, and the colour
      and UV lists are vertex-parallel when their channel is on and empty
      when it is off. */
  lemma ReadVerticesLists(vs: seq<PlyVertex>, colors: bool, textures: bool)
    requires ReadVertices(vs, colors, textures).Ok?
    ensures var l := ReadVertices(vs, colors, textures).value;
      && |l.points| == |vs|
      && |l.rgba| == (if colors then |vs| else 0)
      && |l.uvs| == (if textures then |vs| else 0)
      && (forall i :: 0 <= i < |vs| ==> Ok(l.points[i]) == ReadPoint(vs[i]))
      && (colors ==> forall i :: 0 <= i < |vs| ==> Ok(l.rgba[i]) == ReadColor(vs[i]))
      && (textures ==> forall i :: 0 <= i < |vs| ==> Ok(l.uvs[i]) == ReadUv(vs[i]))
  {
    PointsList(vs, colors, textures);
    RgbaList(vs, colors, textures);
    UvList(vs, colors, textures);
  }

  /** One unfolding of the vertex loop that completed: the earlier vertices
      completed and the last vertex's row was appended. */
  lemma ReadVerticesLast(vs: seq<PlyVertex>, colors: bool, textures: bool)
    requires vs != [] && ReadVertices(vs, colors, textures).Ok?
    ensures ReadVertices(vs[..|vs| - 1], colors, textures).Ok?
    ensures ReadVertex(vs[|vs| - 1], colors, textures).Ok?
    ensures var acc := ReadVertices(vs[..|vs| - 1], colors, textures).value;
      var row := ReadVertex(vs[|vs| - 1], colors, textures).value;
      ReadVertices(vs, colors, textures).value ==
        VertexLists(acc.points + [row.point], acc.rgba + row.color, acc.uvs + row.uv)
  {
  }

  /** Appending the reading of the last vertex to a list that is parallel
      to the earlier vertices gives a list parallel to all of them. */
  lemma AppendParallel<T>(xs: seq<T>, x: T, vs: seq<PlyVertex>, read: PlyVertex -> Result<T, PlyError>)
    requires vs != [] && |xs| == |vs| - 1
    requires forall i :: 0 <= i < |xs| ==> Ok(xs[i]) == read(vs[..|vs| - 1][i])
    requires Ok(x) == read(vs[|vs| - 1])
    ensures forall i :: 0 <= i < |vs| ==> Ok((xs + [x])[i]) == read(vs[i])
  {
    forall i | 0 <= i < |vs| ensures Ok((xs + [x])[i]) == read(vs[i]) {
      if i < |xs| {
        assert vs[..|vs| - 1][i] == vs[i];
      }
    }
  }

  lemma {:induction false} PointsList(vs: seq<PlyVertex>, colors: bool, textures: bool)
    requires ReadVertices(vs, colors, textures).Ok?
    ensures var l := ReadVertices(vs, colors, textures).value;
      && |l.points| == |vs|
      && (forall i :: 0 <= i < |vs| ==> Ok(l.points[i]) == ReadPoint(vs[i]))
    decreases |vs|
  {
    if vs != [] {
      var n := |vs| - 1;
      ReadVerticesLast(vs, colors, textures);
      PointsList(vs[..n], colors, textures);
      var acc := ReadVertices(vs[..n], colors, textures).value;
      AppendParallel(acc.points, ReadVertex(vs[n], colors, textures).value.point, vs, ReadPoint);
    }
  }

  lemma {:induction false} RgbaList(vs: seq<PlyVertex>, colors: bool, textures: bool)
    requires ReadVertices(vs, colors, textures).Ok?
    ensures var l := ReadVertices(vs, colors, textures).value;
      && |l.rgba| == (if colors then |vs| else 0)
      && (colors ==> forall i :: 0 <= i < |vs| ==> Ok(l.rgba[i]) == ReadColor(vs[i]))
    decreases |vs|
  {
    if vs != [] {
      var n := |vs| - 1;
      ReadVerticesLast(vs, colors, textures);
      RgbaList(vs[..n], colors, textures);
      if colors {
        var acc := ReadVertices(vs[..n], colors, textures).value;
        assert ReadColor(vs[n]).Ok?;
        AppendParallel(acc.rgba, ReadColor(vs[n]).value, vs, ReadColor);
      }
    }
  }

  lemma {:induction false} UvList(vs: seq<PlyVertex>, colors: bool, textures: bool)
    requires ReadVertices(vs, colors, textures).Ok?
    ensures var l := ReadVertices(vs, colors, textures).value;
      && |l.uvs| == (if textures then |vs| else 0)
      && (textures ==> forall i :: 0 <= i < |vs| ==> Ok(l.uvs[i]) == ReadUv(vs[i]))
    decreases |vs|
  {
    if vs != [] {
      var n := |vs| - 1;
      ReadVerticesLast(vs, colors, textures);
      UvList(vs[..n], colors, textures);
      if textures {
        var acc := ReadVertices(vs[..n], colors, textures).value;
        assert ReadUv(vs[n]).Ok?;
        AppendParallel(acc.uvs, ReadUv(vs[n]).value, vs, ReadUv);
      }
    }
  }

  /** When the loop raises, it is with the error of the first vertex that raises. */
  lemma {:induction false} ReadVerticesError(vs: seq<PlyVertex>, colors: bool, textures: bool)
    requires ReadVertices(vs, colors, textures).Err?
    ensures exists i ::
      && 0 <= i < |vs|
      && (forall j :: 0 <= j < i ==> ReadVertex(vs[j], colors, textures).Ok?)
      && ReadVertex(vs[i], colors, textures) == Err(ReadVertices(vs, colors, textures).error)
    decreases |vs|
  {
    var n := |vs| - 1;
    var p := vs[..n];
    if ReadVertices(p, colors, textures).Err? {
      ReadVerticesError(p, colors, textures);
      var i :| 0 <= i < |p| && (forall j :: 0 <= j < i ==> ReadVertex(p[j], colors, textures).Ok?)
        && ReadVertex(p[i], colors, textures) == Err(ReadVertices(p, colors, textures).error);
      assert forall j :: 0 <= j <= i ==> p[j] == vs[j];
    } else {
      ReadVerticesOk(p, colors, textures);
      assert forall j :: 0 <= j < n ==> p[j] == vs[j];
      assert ReadVertex(vs[n], colors, textures) == Err(ReadVertices(vs, colors, textures).error);
    }
  }

  // ---------------------------------------------------------------------
  // One intermediate archive per frame
  // ---------------------------------------------------------------------

  /** `"TempFile_" + str(fileIndex) + ".abc"`. */
  function TempName(fileIndex: nat): string
  {
    "TempFile_" + NatToString(fileIndex) + ".abc"
  }

  /** Two frames never share an intermediate file name. */
  lemma TempNamesDistinct(i: nat, j: nat)
    requires i != j
    ensures TempName(i) != TempName(j)
  {
    if TempName(i) == TempName(j) {
      var a, b := NatToString(i), NatToString(j);
      assert |a| == |TempName(i)| - 13 == |b|;
      assert a == TempName(i)[9..9 + |a|];
      assert b == TempName(j)[9..9 + |b|];
      NatToStringInjective(i, j);
    }
  }

  /** What `writeTempABCFiles` leaves in its archive: one mesh sample, one
      "rgba" colour sample when colours are on, one "uvs" sample when
      textures are on; or the exception the vertex loop raised. */
  function TempArchive(frame: PlyFrame, colors: bool, textures: bool): Result<Archive, PlyError>
  {
    match ReadVertices(frame.vertices, colors, textures)
    case Err(e) => Err(e)
    case Ok(l) =>
      Ok(Archive(
        [MeshSample(l.points, FlattenReversed(frame.faces), FaceCounts(frame.faces))],
        if colors then Some(GeomParam(RGBA_NAME, [C4fVals(l.rgba)])) else None,
        if textures then Some(GeomParam(UVS_NAME, [l.uvs])) else None))
  }

  /** Each intermediate archive holds exactly one mesh sample, one colour
      sample iff colours are on and one UV sample iff textures are on, under
      the reserved names, all vertex-parallel. */
  lemma TempArchiveShape(frame: PlyFrame, colors: bool, textures: bool)
    requires TempArchive(frame, colors, textures).Ok?
    ensures var a := TempArchive(frame, colors, textures).value;
      && |a.meshSamples| == 1
      && |a.meshSamples[0].positions| == |frame.vertices|
      && a.meshSamples[0].faceCounts == FaceCounts(frame.faces)
      && a.meshSamples[0].faceIndices == FlattenReversed(frame.faces)
      && (a.color.Some? <==> colors)
      && (a.uvs.Some? <==> textures)
      && (colors ==> a.color.value.name == RGBA_NAME && |a.color.value.samples| == 1
                     && ColorCount(a.color.value.samples[0]) == |frame.vertices|)
      && (textures ==> a.uvs.value.name == UVS_NAME && |a.uvs.value.samples| == 1
                       && |a.uvs.value.samples[0]| == |frame.vertices|)
  {
    ReadVerticesLists(frame.vertices, colors, textures);
  }

  /** `setArray`: a fresh array filled element by element from a list. */
  method SetArray<T(0)>(xs: seq<T>) returns (a: array<T>)
    ensures fresh(a) && a[..] == xs
  {
    a := new T[|xs|];
    for i := 0 to |xs|
      invariant a[..i] == xs[..i]
    {
      a[i] := xs[i];
    }
  }

  /** The face loop of `writeTempABCFiles`: one count per face, and each
      face's indices appended in reverse. */
  method FaceLists(faces: seq<seq<int>>) returns (faceCountList: seq<int>, faceIndicesList: seq<int>)
    ensures |faceCountList| == |faces|
    ensures forall i :: 0 <= i < |faces| ==> faceCountList[i] == |faces[i]|
    ensures faceIndicesList == FlattenReversed(faces)
  {
    faceCountList, faceIndicesList := [], [];
    for i := 0 to |faces|
      invariant faceCountList == FaceCounts(faces[..i])
      invariant faceIndicesList == FlattenReversed(faces[..i])
    {
      var vertexIndices := faces[i];
      faceCountList := faceCountList + [|vertexIndices|];
      ghost var before := faceIndicesList;
      var j := |vertexIndices|;
      while j > 0
        invariant 0 <= j <= |vertexIndices|
        invariant faceIndicesList == before + Reverse(vertexIndices)[..|vertexIndices| - j]
      {
        j := j - 1;
        faceIndicesList := faceIndicesList + [vertexIndices[j]];
        assert Reverse(vertexIndices)[..|vertexIndices| - j]
            == Reverse(vertexIndices)[..|vertexIndices| - j - 1] + [vertexIndices[j]];
      }
      assert faces[..i + 1][..i] == faces[..i];
      assert Reverse(vertexIndices)[..|vertexIndices|] == Reverse(vertexIndices);
    }
    assert faces[..|faces|] == faces;
  }

  /** The vertex loop of `writeTempABCFiles`: appends a point per vertex, and
      a colour and a texture coordinate when their channel is on; the first
      missing field raises. */
  method VertexLoop(vs: seq<PlyVertex>, colors: bool, textures: bool) returns (r: Result<VertexLists, PlyError>)
    ensures r == ReadVertices(vs, colors, textures)
  {
    var pointList: seq<V3f> := [];
    var rgbaList: seq<C4f> := [];
    var uvList: seq<V2f> := [];
    for i := 0 to |vs|
      invariant ReadVertices(vs[..i], colors, textures) == Ok(VertexLists(pointList, rgbaList, uvList))
    {
      assert vs[..i + 1][..i] == vs[..i] && vs[..i + 1][i] == vs[i];
      var point := ReadPoint(vs[i]);
      if point.Err? {
        AbortedVertexLoop(vs, i + 1, colors, textures);
        return Err(point.error);
      }
      var rgbaRow: seq<C4f> := [];
      if colors {
        var c := ReadColor(vs[i]);
        if c.Err? {
          AbortedVertexLoop(vs, i + 1, colors, textures);
          return Err(c.error);
        }
        rgbaRow := [c.value];
      }
      var uvRow: seq<V2f> := [];
      if textures {
        var uv := ReadUv(vs[i]);
        if uv.Err? {
          AbortedVertexLoop(vs, i + 1, colors, textures);
          return Err(uv.error);
        }
        uvRow := [uv.value];
      }
      assert ReadVertex(vs[i], colors, textures) == Ok(VertexRow(point.value, rgbaRow, uvRow));
      pointList, rgbaList, uvList := pointList + [point.value], rgbaList + rgbaRow, uvList + uvRow;
    }
    assert vs[..|vs|] == vs;
    r := Ok(VertexLists(pointList, rgbaList, uvList));
  }

  /** `writeTempABCFiles`: builds the lists with the source's loops, copies
      them into arrays, and returns the file name and the archive written
      there, or the exception the vertex loop raised. */
  method WriteTempAbcFile(frame: PlyFrame, fileIndex: nat, colors: bool, textures: bool)
    returns (name: string, r: Result<Archive, PlyError>)
    ensures name == TempName(fileIndex)
    ensures r == TempArchive(frame, colors, textures)
  {
    name := TempName(fileIndex);
    var faceCountList, faceIndicesList := FaceLists(frame.faces);
    assert faceCountList == FaceCounts(frame.faces);
    var faceIndices := SetArray(faceIndicesList);
    var faceCounts := SetArray(faceCountList);
    var lists := VertexLoop(frame.vertices, colors, textures);
    if lists.Err? {
      return name, Err(lists.error);
    }
    var points := SetArray(lists.value.points);
    var color: Option<GeomParam<ColorVals>> := None;
    var uvs: Option<GeomParam<seq<V2f>>> := None;
    if colors {
      var rgba := SetArray(lists.value.rgba);
      color := Some(GeomParam(RGBA_NAME, [C4fVals(rgba[..])]));
    }
    if textures {
      var uvsArray := SetArray(lists.value.uvs);
      uvs := Some(GeomParam(UVS_NAME, [uvsArray[..]]));
    }
    r := Ok(Archive([MeshSample(points[..], faceIndices[..], faceCounts[..])], color, uvs));
  }

  /** Once a prefix of the vertex loop raises, the whole loop raises the same error. */
  lemma {:induction false} AbortedVertexLoop(vs: seq<PlyVertex>, k: nat, colors: bool, textures: bool)
    requires k <= |vs|
    requires ReadVertices(vs[..k], colors, textures).Err?
    ensures ReadVertices(vs, colors, textures) == ReadVertices(vs[..k], colors, textures)
    decreases |vs| - k
  {
    if k < |vs| {
      assert vs[..k + 1][..k] == vs[..k];
      AbortedVertexLoop(vs, k + 1, colors, textures);
    } else {
      assert vs[..k] == vs;
    }
  }
}

module PlyToAbcBatch {
  import opened Wrappers
  import opened Abc
  import opened Ply
  import opened PlyToAbc

  // ---------------------------------------------------------------------
  // The batch: probing frame 0, gating, numbering
  // ---------------------------------------------------------------------

  /** `testForRGBAInPLYFile` on the parsed frame: does vertex 0 have a
      "red" field? A frame without vertices raises IndexError. */
  function TestForRgba(frame: PlyFrame): Result<bool, PlyError>
  {
    if frame.vertices == [] then Err(NoVertex)
    else Ok(Field(frame.vertices[0], "red").Ok?)
  }

  /** `testForUVsInPLYFile` on the parsed frame: does vertex 0 have "u" and "v"? */
  function TestForUvs(frame: PlyFrame): Result<bool, PlyError>
  {
    if frame.vertices == [] then Err(NoVertex)
    else Ok(Field(frame.vertices[0], "u").Ok? && Field(frame.vertices[0], "v").Ok?)
  }

  predicate Frame0HasRed(frames: seq<PlyFrame>)
  {
    frames != [] && frames[0].vertices != [] && Field(frames[0].vertices[0], "red").Ok?
  }

  predicate Frame0HasUv(frames: seq<PlyFrame>)
  {
    frames != [] && frames[0].vertices != []
    && Field(frames[0].vertices[0], "u").Ok? && Field(frames[0].vertices[0], "v").Ok?
  }

  /** The probe step of `generateTempAbcs`: a requested channel stays on only
      when frame 0 has it; an unrequested channel is never probed. */
  function Gating(frames: seq<PlyFrame>, colors: bool, textures: bool): (r: Result<(bool, bool), PlyError>)
    ensures r.Err? <==> (colors || textures) && (frames == [] || frames[0].vertices == [])
    ensures r.Ok? ==> r.value.0 == (colors && Frame0HasRed(frames))
    ensures r.Ok? ==> r.value.1 == (textures && Frame0HasUv(frames))
  {
    var effColors :=
      if !colors then Ok(false)
      else if frames == [] then Err(NoFrame)
      else TestForRgba(frames[0]);
    if effColors.Err? then Err(effColors.error)
    else
      var effTextures :=
        if !textures then Ok(false)
        else if frames == [] then Err(NoFrame)
        else TestForUvs(frames[0]);
      if effTextures.Err? then Err(effTextures.error)
      else Ok((effColors.value, effTextures.value))
  }

  /** The frame loop: frame k is written as `TempName(k)` until one raises. */
  function WriteAll(frames: seq<PlyFrame>, colors: bool, textures: bool): (w: seq<(string, Archive)>)
    ensures |w| <= |frames|
    ensures |w| < |frames| ==> TempArchive(frames[|w|], colors, textures).Err?
  {
    if frames == [] then []
    else
      var w := WriteAll(frames[..|frames| - 1], colors, textures);
      if |w| < |frames| - 1 then w
      else
        match TempArchive(frames[|frames| - 1], colors, textures)
        case Err(_) => w
        case Ok(a) => w + [(TempName(|frames| - 1), a)]
  }

  /** The outcome of `generateTempAbcs`: the effective flags, the files
      written (name and contents) and the exception that ended the run, if any. */
  datatype Batch = Batch(colors: bool, textures: bool, written: seq<(string, Archive)>, failure: Option<PlyError>)

  function Generate(frames: seq<PlyFrame>, colors: bool, textures: bool): Batch
  {
    match Gating(frames, colors, textures)
    case Err(e) => Batch(colors, textures, [], Some(e))
    case Ok((c, t)) =>
      var w := WriteAll(frames, c, t);
      if |w| == |frames| then Batch(c, t, w, None)
      else Batch(c, t, w, Some(TempArchive(frames[|w|], c, t).error))
  }

  /** Frame k of the list is written with index k under "TempFile_<k>.abc",
      holding the archive of that frame; the loop stops at the first frame
      that raises, and that frame is exactly the one after the last written. */
  lemma {:induction false} WriteAllSpec(frames: seq<PlyFrame>, colors: bool, textures: bool)
    ensures var w := WriteAll(frames, colors, textures);
      forall k :: 0 <= k < |w| ==>
        w[k].0 == TempName(k) && TempArchive(frames[k], colors, textures) == Ok(w[k].1)
    decreases |frames|
  {
    if frames != [] {
      var n := |frames| - 1;
      var p := frames[..n];
      WriteAllSpec(p, colors, textures);
      var w, wp := WriteAll(frames, colors, textures), WriteAll(p, colors, textures);
      assert w == wp || w == wp + [(TempName(n), TempArchive(frames[n], colors, textures).value)];
      forall k | 0 <= k < |w|
        ensures w[k].0 == TempName(k) && TempArchive(frames[k], colors, textures) == Ok(w[k].1)
      {
        if k < |wp| {
          assert w[k] == wp[k] && p[k] == frames[k];
        }
      }
    }
  }

  /** The batch as a whole: the gated flags, one correctly named file per
      frame in list order, and the failure is exactly the first frame that raised. */
  lemma GenerateSpec(frames: seq<PlyFrame>, colors: bool, textures: bool)
    ensures var b := Generate(frames, colors, textures);
      && (b.colors ==> colors) && (b.textures ==> textures)
      && (Gating(frames, colors, textures).Ok? ==>
            b.colors == (colors && Frame0HasRed(frames)) && b.textures == (textures && Frame0HasUv(frames)))
      && |b.written| <= |frames|
      && (forall k :: 0 <= k < |b.written| ==>
            b.written[k].0 == TempName(k) && TempArchive(frames[k], b.colors, b.textures) == Ok(b.written[k].1))
      && (Gating(frames, colors, textures).Err? ==>
            b.written == [] && b.failure == Some(Gating(frames, colors, textures).error))
      && (Gating(frames, colors, textures).Ok? ==> (b.failure.None? <==> |b.written| == |frames|))
      && (Gating(frames, colors, textures).Ok? && b.failure.Some? ==>
            TempArchive(frames[|b.written|], b.colors, b.textures) == Err(b.failure.value))
  {
    match Gating(frames, colors, textures)
    case Err(e) =>
    case Ok((c, t)) => WriteAllSpec(frames, c, t);
  }

  /** `generateTempAbcs`: probes frame 0, switches requested channels off
      that frame 0 lacks, then writes the frames one by one with a counter. */
  method GenerateTempAbcs(frames: seq<PlyFrame>, colors: bool, textures: bool) returns (b: Batch)
    ensures b == Generate(frames, colors, textures)
  {
    var processInputColors, processInputTextures := colors, textures;
    if processInputColors {
      if frames == [] { return Batch(colors, textures, [], Some(NoFrame)); }
      var isRgbaInFile := TestForRgba(frames[0]);
      if isRgbaInFile.Err? { return Batch(colors, textures, [], Some(isRgbaInFile.error)); }
      if !isRgbaInFile.value { processInputColors := false; }
    }
    if processInputTextures {
      if frames == [] { return Batch(colors, textures, [], Some(NoFrame)); }
      var isUvsInFile := TestForUvs(frames[0]);
      if isUvsInFile.Err? { return Batch(colors, textures, [], Some(isUvsInFile.error)); }
      if !isUvsInFile.value { processInputTextures := false; }
    }
    assert Gating(frames, colors, textures) == Ok((processInputColors, processInputTextures));
    var written, failure := WriteFrames(frames, processInputColors, processInputTextures);
    b := Batch(processInputColors, processInputTextures, written, failure);
  }

  /** The frame loop of `generateTempAbcs`: an index counter that starts at
      0 and goes up by one per frame written; an exception ends the loop. */
  method WriteFrames(frames: seq<PlyFrame>, colors: bool, textures: bool)
    returns (written: seq<(string, Archive)>, failure: Option<PlyError>)
    ensures written == WriteAll(frames, colors, textures)
    ensures failure.None? <==> |written| == |frames|
    ensures failure.Some? ==> TempArchive(frames[|written|], colors, textures) == Err(failure.value)
  {
    written := [];
    var index := 0;
    while index < |frames|
      invariant 0 <= index <= |frames|
      invariant written == WriteAll(frames[..index], colors, textures)
      invariant |written| == index
    {
      var name, r := WriteTempAbcFile(frames[index], index, colors, textures);
      if r.Err? {
        WriteAllStops(frames, index, colors, textures);
        return written, Some(r.error);
      }
      WriteAllStep(frames, index, colors, textures);
      written := written + [(name, r.value)];
      index := index + 1;
    }
    assert frames[..index] == frames;
    failure := None;
  }

  /** One more frame written extends the written list by its file. */
  lemma WriteAllStep(frames: seq<PlyFrame>, index: nat, colors: bool, textures: bool)
    requires index < |frames|
    requires |WriteAll(frames[..index], colors, textures)| == index
    requires TempArchive(frames[index], colors, textures).Ok?
    ensures WriteAll(frames[..index + 1], colors, textures)
         == WriteAll(frames[..index], colors, textures)
            + [(TempName(index), TempArchive(frames[index], colors, textures).value)]
  {
    var prefix := frames[..index + 1];
    assert prefix[..index] == frames[..index] && prefix[index] == frames[index];
  }

  /** A frame that raises ends the loop: nothing after it is written. */
  lemma WriteAllStops(frames: seq<PlyFrame>, index: nat, colors: bool, textures: bool)
    requires index < |frames|
    requires |WriteAll(frames[..index], colors, textures)| == index
    requires TempArchive(frames[index], colors, textures).Err?
    ensures WriteAll(frames, colors, textures) == WriteAll(frames[..index], colors, textures)
  {
    var prefix := frames[..index + 1];
    assert prefix[..index] == frames[..index] && prefix[index] == frames[index];
    StoppedLoop(frames, index + 1, colors, textures);
  }

  /** Once the frame loop has stopped short on a prefix, longer prefixes add nothing. */
  lemma {:induction false} StoppedLoop(frames: seq<PlyFrame>, k: nat, colors: bool, textures: bool)
    requires k <= |frames|
    requires |WriteAll(frames[..k], colors, textures)| < k
    ensures WriteAll(frames, colors, textures) == WriteAll(frames[..k], colors, textures)
    decreases |frames| - k
  {
    if k < |frames| {
      assert frames[..k + 1][..k] == frames[..k];
      StoppedLoop(frames, k + 1, colors, textures);
    } else {
      assert frames[..k] == frames;
    }
  }
}
