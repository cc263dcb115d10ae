/** The two layout conversions of the mesh buffer builder: Assimp's faces flattened into one
    index array for GL_ELEMENT_ARRAY_BUFFER, and texture channel 0 packed into 2 floats per
    vertex for the UV buffer. */
module MeshBuffers {
  import opened Gl
  import opened SceneModel

  /** struct MeshInfo: one record per mesh, the unit the renderer walks. */
  datatype MeshInfo = MeshInfo(
    textureIndex: Name,        // GL texture name, 0 for none
    numberOfFaces: nat,
    faceBuffer: Name,
    textureCoordBuffer: Name,
    vertexBuffer: Name)

  /** The index array GL draws from: the 3 indices of every face, face after face. */
  function FlatFaces(faces: seq<Face>): (r: seq<nat>)
    ensures |r| == 3 * |faces|
  {
    if faces == [] then [] else [faces[0].i0, faces[0].i1, faces[0].i2] + FlatFaces(faces[1..])
  }

  /** Index 3t+k of the flat array is index k of face t. */
  lemma {:induction false} FlatFacesAt(faces: seq<Face>, t: nat, k: nat)
    requires t < |faces| && k < 3
    ensures FlatFaces(faces)[3 * t + k] == faces[t].At(k)
  {
    if t > 0 {
      FlatFacesAt(faces[1..], t - 1, k);
      assert FlatFaces(faces)[3 * t + k] == FlatFaces(faces[1..])[3 * (t - 1) + k];
    }
  }

  /** The UV array GL samples from: (u, v) of every texture coordinate, the third component
      dropped. */
  function PackUVs(uvs: seq<Vec3>): (r: seq<Coord>)
    ensures |r| == 2 * |uvs|
  {
    if uvs == [] then [] else [uvs[0].x, uvs[0].y] + PackUVs(uvs[1..])
  }

  /** Index 2k of the packed array is u of coordinate k, index 2k+1 is its v. */
  lemma {:induction false} PackUVsAt(uvs: seq<Vec3>, k: nat)
    requires k < |uvs|
    ensures PackUVs(uvs)[2 * k] == uvs[k].x && PackUVs(uvs)[2 * k + 1] == uvs[k].y
  {
    if k > 0 {
      PackUVsAt(uvs[1..], k - 1);
      assert PackUVs(uvs)[2 * k] == PackUVs(uvs[1..])[2 * (k - 1)];
      assert PackUVs(uvs)[2 * k + 1] == PackUVs(uvs[1..])[2 * (k - 1) + 1];
    }
  }

  /** The face loop of GenerateGLBuffers: a new array of 3 * mNumFaces unsigned ints, filled
      by copying the 3 indices of face t to position faceIndex = 3t. */
  method FlattenFaces(faces: seq<Face>) returns (faceArray: array<nat>)
    ensures fresh(faceArray)
    ensures faceArray[..] == FlatFaces(faces)
  {
    faceArray := new nat[3 * |faces|];
    var faceIndex := 0;
    var t := 0;
    while t < |faces|
      invariant 0 <= t <= |faces| && faceIndex == 3 * t
      invariant forall i :: 0 <= i < faceIndex ==> faceArray[i] == FlatFaces(faces)[i]
    {
      var face := faces[t];
      faceArray[faceIndex] := face.i0;
      faceArray[faceIndex + 1] := face.i1;
      faceArray[faceIndex + 2] := face.i2;
      FlatFacesAt(faces, t, 0);
      FlatFacesAt(faces, t, 1);
      FlatFacesAt(faces, t, 2);
      faceIndex := faceIndex + 3;
      t := t + 1;
    }
  }

  /** The texture-coordinate loop of GenerateGLBuffers: a new array of 2 * mNumVertices floats
      with textureCoords[2k] = u and textureCoords[2k+1] = v of coordinate k. */
  method PackTextureCoords(uvs: seq<Vec3>, numVertices: nat) returns (textureCoords: array<Coord>)
    requires |uvs| == numVertices
    ensures fresh(textureCoords)
    ensures textureCoords[..] == PackUVs(uvs)
  {
    textureCoords := new Coord[2 * numVertices];
    var k := 0;
    while k < numVertices
      invariant 0 <= k <= numVertices
      invariant forall i :: 0 <= i < 2 * k ==> textureCoords[i] == PackUVs(uvs)[i]
    {
      textureCoords[k * 2] := uvs[k].x;
      textureCoords[k * 2 + 1] := uvs[k].y;
      PackUVsAt(uvs, k);
      k := k + 1;
    }
  }
}
