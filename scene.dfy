/** Option, as returned by lookups and by an import that may fail. */
module Wrappers {
  datatype Option<+T> = None | Some(value: T)
}

/** The imported scene as the loader sees it (Assimp's aiScene, aiMesh, aiFace and
    aiMaterial), reduced to what the loader reads. */
module SceneModel {
  import opened Wrappers
  import opened Gl

  /** A triangle: aiFace with its 3 vertex indices. */
  datatype Face = Face(i0: nat, i1: nat, i2: nat)
  {
    /** mIndices[k] */
    function At(k: nat): nat
      requires k < 3
    {
      if k == 0 then i0 else if k == 1 then i1 else i2
    }
  }

  /** aiMesh: faces, mNumVertices, the vertex array mVertices (absent when null), texture
      coordinate channel 0 mTextureCoords[0] (absent when null, 3 components per vertex)
      and the index of its material. */
  datatype Mesh = Mesh(
    faces: seq<Face>,
    numVertices: nat,
    positions: Option<seq<Vec3>>,
    uv0: Option<seq<Vec3>>,
    materialIndex: nat)
  {
    /** aiMesh::HasPositions */
    predicate HasPositions() {
      positions.Some? && numVertices > 0
    }

    /** aiMesh::HasTextureCoords(0) */
    predicate HasTextureCoords0() {
      uv0.Some? && numVertices > 0
    }

    /** What the importer guarantees about the per-vertex arrays. */
    predicate WellFormed() {
      && (positions.Some? ==> |positions.value| == numVertices)
      && (uv0.Some? ==> |uv0.value| == numVertices)
    }
  }

  /** aiMaterial, reduced to its diffuse texture stack: GetTexture(aiTextureType_DIFFUSE, i)
      succeeds exactly for i < |diffuse| and yields diffuse[i]. */
  datatype Material = Material(diffuse: seq<string>)
  {
    /** GetTexture(aiTextureType_DIFFUSE, index, &path): AI_SUCCESS and the filename, or a
        failure once the index runs past the stack. */
    function GetTexture(index: nat): Option<string>
    {
      if index < |diffuse| then Some(diffuse[index]) else None
    }
  }

  datatype Scene = Scene(meshes: seq<Mesh>, materials: seq<Material>)
  {
    /** Every mesh names an existing material and has consistent vertex arrays. */
    predicate WellFormed() {
      forall n :: 0 <= n < |meshes| ==>
        meshes[n].materialIndex < |materials| && meshes[n].WellFormed()
    }
  }

  function Elements(s: seq<string>): set<string> {
    set f | f in s
  }

  /** Every diffuse filename of every material, each once. */
  function DiffuseNames(mats: seq<Material>): set<string>
  {
    if mats == [] then {} else DiffuseNames(mats[..|mats| - 1]) + Elements(mats[|mats| - 1].diffuse)
  }

  /** A file is among the diffuse names exactly when some material lists it at some index. */
  lemma {:induction false} DiffuseNamesMembers(mats: seq<Material>, f: string)
    ensures f in DiffuseNames(mats) <==>
      exists m, i :: 0 <= m < |mats| && 0 <= i < |mats[m].diffuse| && mats[m].diffuse[i] == f
  {
    if mats != [] {
      var last := |mats| - 1;
      DiffuseNamesMembers(mats[..last], f);
      if f in Elements(mats[last].diffuse) {
        var i :| 0 <= i < |mats[last].diffuse| && mats[last].diffuse[i] == f;
        assert mats[last].diffuse[i] == f;
      }
      if exists m, i :: 0 <= m < |mats| && 0 <= i < |mats[m].diffuse| && mats[m].diffuse[i] == f {
        var m, i :| 0 <= m < |mats| && 0 <= i < |mats[m].diffuse| && mats[m].diffuse[i] == f;
        if m < last {
          assert mats[..last][m].diffuse[i] == f;
        }
      }
    }
  }
}
