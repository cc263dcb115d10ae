/** AssimpLoader: imports a scene, uploads its textures and mesh buffers to the GPU, keeps
    the list of mesh records and the loaded flag, and renders the records each frame. */
module Loader {
  import opened Wrappers
  import opened Gl
  import opened SceneModel
  import opened MeshBuffers
  import opened KeyOrder
  import opened LoaderSpec
  import opened Render

  /** The buffer part of one iteration of GenerateGLBuffers' mesh loop: faceArray, the face,
      vertex and UV buffers. Only the fields whose condition holds are overwritten in the
      reused struct `prev`. */
  method BuildMeshBuffers(mesh: Mesh, prev: MeshInfo, gl: Gpu) returns (info: MeshInfo)
    requires gl.Valid() && mesh.WellFormed()
    modifies gl
    ensures gl.Valid()
    ensures info.numberOfFaces == |mesh.faces| && info.textureIndex == prev.textureIndex
    ensures BuffersOf(info, mesh, gl.buffers, old(gl.nextBuffer), gl.nextBuffer) && Inherits(info, prev, mesh)
    ensures gl.nextBuffer == old(gl.nextBuffer) + NewBuffers(mesh)
    ensures BuffersGrown(old(gl.buffers), gl.buffers, old(gl.nextBuffer), gl.nextBuffer)
    ensures gl.nextTexture == old(gl.nextTexture) && gl.textures == old(gl.textures)
  {
    info := prev;
    var faceArray := FlattenFaces(mesh.faces);
    info := info.(numberOfFaces := |mesh.faces|);
    if info.numberOfFaces != 0 {
      var buffer := gl.GenBuffer();
      gl.BufferStore(buffer, Indices(faceArray[..]));
      info := info.(faceBuffer := buffer);
    }
    if mesh.HasPositions() {
      var buffer := gl.GenBuffer();
      gl.BufferStore(buffer, Positions(mesh.positions.value));
      info := info.(vertexBuffer := buffer);
    }
    if mesh.HasTextureCoords0() {
      var textureCoords := PackTextureCoords(mesh.uv0.value, mesh.numVertices);
      var buffer := gl.GenBuffer();
      gl.BufferStore(buffer, Coords(textureCoords[..]));
      info := info.(textureCoordBuffer := buffer);
    }
  }

  class AssimpLoader {
    var scene: Option<Scene>
    var isObjectLoaded: bool
    var modelMeshes: seq<MeshInfo>
    var textureNameMap: map<string, Name>

    /** No records are kept while nothing is loaded. */
    ghost predicate Valid()
      reads this
    {
      !isObjectLoaded ==> modelMeshes == []
    }

    constructor ()
      ensures Valid()
      ensures scene == None && !isObjectLoaded && modelMeshes == [] && textureNameMap == map[]
    {
      scene := None;
      isObjectLoaded := false;
      modelMeshes := [];
      textureNameMap := map[];
    }

    /** One record per scene mesh, in mesh order, appended to modelMeshes. */
    method GenerateGLBuffers(gl: Gpu)
      requires scene.Some? && scene.value.WellFormed() && gl.Valid()
      modifies this`modelMeshes, this`textureNameMap, gl
      ensures gl.Valid()
      ensures scene == old(scene) && isObjectLoaded == old(isObjectLoaded)
      ensures |modelMeshes| == |old(modelMeshes)| + |scene.value.meshes|
      ensures modelMeshes[..|old(modelMeshes)|] == old(modelMeshes)
      ensures RecordsBuilt(modelMeshes[|old(modelMeshes)|..], scene.value.meshes, scene.value.materials,
                           old(textureNameMap), gl.buffers, old(gl.nextBuffer))
      ensures textureNameMap == TableAfterLookups(old(textureNameMap), scene.value.meshes, scene.value.materials)
      ensures gl.nextBuffer == old(gl.nextBuffer) + BufferCount(scene.value.meshes)
      ensures BuffersGrown(old(gl.buffers), gl.buffers, old(gl.nextBuffer), gl.nextBuffer)
      ensures gl.nextTexture == old(gl.nextTexture) && gl.textures == old(gl.textures)
    {
      var meshes := scene.value.meshes;
      var mats := scene.value.materials;
      ghost var built: seq<MeshInfo> := [];
      ghost var table0 := textureNameMap;
      ghost var b0 := gl.nextBuffer;
      var newMeshInfo: MeshInfo := *;
      var n := 0;
      while n < |meshes|
        invariant 0 <= n <= |meshes| && gl.Valid()
        invariant modelMeshes == old(modelMeshes) + built && |built| == n
        invariant n > 0 ==> newMeshInfo == built[n - 1]
        invariant MeshesBuilt(built, meshes, n, mats, table0, textureNameMap, old(gl.buffers), gl.buffers, b0, gl.nextBuffer)
        invariant gl.nextTexture == old(gl.nextTexture) && gl.textures == old(gl.textures)
      {
        ghost var buffersBefore := gl.buffers;
        ghost var nextBefore := gl.nextBuffer;
        ghost var tableBefore := textureNameMap;
        ghost var prev := newMeshInfo;
        newMeshInfo := BuildMeshRecord(meshes[n], mats[meshes[n].materialIndex], newMeshInfo, gl);
        MeshStep(built, meshes, n, mats, table0, tableBefore, textureNameMap, old(gl.buffers), buffersBefore,
                 gl.buffers, b0, nextBefore, gl.nextBuffer, prev, newMeshInfo);
        modelMeshes := modelMeshes + [newMeshInfo];
        built := built + [newMeshInfo];
        n := n + 1;
      }
      assert meshes[..n] == meshes;
      assert modelMeshes[..|old(modelMeshes)|] == old(modelMeshes);
      assert modelMeshes[|old(modelMeshes)|..] == built;
    }

    /** One iteration of GenerateGLBuffers' mesh loop: the buffers of `mesh` in the reused
        struct `prev`, then the texture lookup of its material `mtl`. */
    method BuildMeshRecord(mesh: Mesh, mtl: Material, prev: MeshInfo, gl: Gpu) returns (rec: MeshInfo)
      requires gl.Valid() && mesh.WellFormed()
      modifies this`textureNameMap, gl
      ensures gl.Valid() && gl.nextTexture == old(gl.nextTexture) && gl.textures == old(gl.textures)
      ensures MeshRecordBuilt(rec, prev, mesh, mtl, old(textureNameMap), textureNameMap,
                              old(gl.buffers), gl.buffers, old(gl.nextBuffer), gl.nextBuffer)
    {
      rec := BuildMeshBuffers(mesh, prev, gl);
      var textureId := MaterialTexture(mtl);
      rec := rec.(textureIndex := textureId);
    }

    /** The texture name for a mesh with material mtl: 0 without a diffuse texture, else
        textureNameMap[first filename], where operator[] inserts a missing filename with 0. */
    method MaterialTexture(mtl: Material) returns (textureId: Name)
      modifies this`textureNameMap
      ensures mtl.GetTexture(0).None? ==> textureNameMap == old(textureNameMap) && textureId == 0
      ensures mtl.GetTexture(0).Some? ==>
        var f := mtl.GetTexture(0).value;
        && textureNameMap == (if f in old(textureNameMap) then old(textureNameMap) else old(textureNameMap)[f := 0])
        && textureId == (if f in old(textureNameMap) then old(textureNameMap)[f] else 0)
    {
      var texturePath := mtl.GetTexture(0);
      if texturePath.None? {
        return 0;
      }
      if texturePath.value !in textureNameMap {
        textureNameMap := textureNameMap[texturePath.value := 0];
      }
      textureId := textureNameMap[texturePath.value];
    }

    /** Filenames of all diffuse textures of all materials, each once, all with name 0. */
    method DiscoverTextureNames()
      requires scene.Some?
      modifies this`textureNameMap
      ensures textureNameMap.Keys == DiffuseNames(scene.value.materials)
      ensures forall f :: f in textureNameMap ==> textureNameMap[f] == 0
    {
      var mats := scene.value.materials;
      textureNameMap := map[];
      var m := 0;
      while m < |mats|
        invariant 0 <= m <= |mats|
        invariant textureNameMap.Keys == DiffuseNames(mats[..m])
        invariant forall f :: f in textureNameMap ==> textureNameMap[f] == 0
      {
        var textureIndex := 0;
        var isTexturePresent := mats[m].GetTexture(textureIndex);
        while isTexturePresent.Some?
          invariant 0 <= textureIndex <= |mats[m].diffuse|
          invariant isTexturePresent == mats[m].GetTexture(textureIndex)
          invariant textureNameMap.Keys == DiffuseNames(mats[..m]) + Elements(mats[m].diffuse[..textureIndex])
          invariant forall f :: f in textureNameMap ==> textureNameMap[f] == 0
          decreases |mats[m].diffuse| - textureIndex
        {
          // std::map::insert leaves an existing key alone
          if isTexturePresent.value !in textureNameMap {
            textureNameMap := textureNameMap[isTexturePresent.value := 0];
          }
          assert mats[m].diffuse[..textureIndex + 1] == mats[m].diffuse[..textureIndex] + [isTexturePresent.value];
          textureIndex := textureIndex + 1;
          isTexturePresent := mats[m].GetTexture(textureIndex);
        }
        assert mats[m].diffuse[..textureIndex] == mats[m].diffuse;
        assert mats[..m + 1][..m] == mats[..m];
        m := m + 1;
      }
      assert mats[..m] == mats;
    }

    /** Generates one texture name per key and walks the keys in ascending order: the i-th key
        gets the i-th name, then its image is decoded from dir/filename and uploaded; the walk
        stops with false at the first image that does not decode. */
    method AssignTextureNames(dir: string, decodable: set<string>, gl: Gpu) returns (ok: bool)
      requires gl.Valid() && forall f :: f in textureNameMap ==> textureNameMap[f] == 0
      modifies this`textureNameMap, gl
      ensures gl.Valid()
      ensures ok == AllDecode(old(textureNameMap).Keys, dir, decodable)
      ensures textureNameMap == AssignedTable(old(textureNameMap).Keys, old(gl.nextTexture), dir, decodable)
      ensures gl.nextTexture == old(gl.nextTexture) + |old(textureNameMap)|
      ensures TexturesUploaded(old(gl.textures), gl.textures, old(textureNameMap).Keys, old(gl.nextTexture), dir, decodable)
      ensures gl.nextBuffer == old(gl.nextBuffer) && gl.buffers == old(gl.buffers)
    {
      ghost var keys := textureNameMap.Keys;
      ghost var base := gl.nextTexture;
      var numTextures := |textureNameMap|;
      assert numTextures == |keys|;
      var textureGLNames := gl.GenTextures(numTextures);
      var remaining := textureNameMap.Keys;
      ghost var done: set<string> := {};
      var i := 0;
      while remaining != {}
        invariant WalkInvariant(keys, base, dir, decodable, done, remaining, textureNameMap, old(gl.textures), gl.textures)
        invariant |done| == i
        invariant |textureGLNames| == |keys| && forall j :: 0 <= j < |keys| ==> textureGLNames[j] == base + j
        invariant gl.Valid() && gl.nextTexture == base + |keys|
        invariant gl.nextBuffer == old(gl.nextBuffer) && gl.buffers == old(gl.buffers)
        decreases |remaining|
      {
        LeastExists(remaining);
        var textureFilename :| IsLeast(remaining, textureFilename);
        NextRank(keys, done, remaining, textureFilename);
        StrictSubsetSmaller(done, keys, textureFilename);
        ghost var tableBefore := textureNameMap;
        ghost var texturesBefore := gl.textures;
        var textureFullPath := dir + "/" + textureFilename;
        textureNameMap := textureNameMap[textureFilename := textureGLNames[i]];
        if textureFullPath !in decodable {
          WalkStopped(keys, base, dir, decodable, done, remaining, tableBefore, old(gl.textures), texturesBefore, textureFilename, textureGLNames[i]);
          return false;
        }
        gl.TexImage(textureGLNames[i], textureFullPath);
        WalkStep(keys, base, dir, decodable, done, remaining, tableBefore, old(gl.textures), texturesBefore, textureFilename, textureGLNames[i]);
        remaining := remaining - {textureFilename};
        done := done + {textureFilename};
        i := i + 1;
      }
      WalkCompleted(keys, base, dir, decodable, done, textureNameMap, old(gl.textures), gl.textures);
      return true;
    }

    /** Reads the names of all diffuse textures of all materials into textureNameMap and loads
        their images to GL. */
    method LoadTexturesToGL(modelFilename: string, directoryOf: string -> string,
                            decodable: set<string>, gl: Gpu) returns (ok: bool)
      requires scene.Some? && gl.Valid()
      modifies this`textureNameMap, gl
      ensures gl.Valid()
      ensures ok == AllDecode(DiffuseNames(scene.value.materials), directoryOf(modelFilename), decodable)
      ensures textureNameMap == AssignedTable(DiffuseNames(scene.value.materials), old(gl.nextTexture),
                                              directoryOf(modelFilename), decodable)
      ensures gl.nextTexture == old(gl.nextTexture) + |DiffuseNames(scene.value.materials)|
      ensures TexturesUploaded(old(gl.textures), gl.textures, DiffuseNames(scene.value.materials),
                               old(gl.nextTexture), directoryOf(modelFilename), decodable)
      ensures gl.nextBuffer == old(gl.nextBuffer) && gl.buffers == old(gl.buffers)
    {
      DiscoverTextureNames();
      assert |textureNameMap| == |textureNameMap.Keys|;
      var modelDirectoryName := directoryOf(modelFilename);
      ok := AssignTextureNames(modelDirectoryName, decodable, gl);
    }

    /** Imports the model file and, when the import and every texture succeed, appends one
        record per mesh and marks the model loaded. */
    method Load3DModel(modelFilename: string, readFile: string -> Option<Scene>,
                       directoryOf: string -> string, decodable: set<string>, gl: Gpu) returns (ok: bool)
      requires Valid() && gl.Valid()
      requires readFile(modelFilename).Some? ==> readFile(modelFilename).value.WellFormed()
      modifies this, gl
      ensures Valid() && gl.Valid()
      ensures scene == readFile(modelFilename)
      ensures ok <==> LoadSucceeds(readFile(modelFilename), directoryOf(modelFilename), decodable)
      ensures !ok ==> modelMeshes == old(modelMeshes) && isObjectLoaded == old(isObjectLoaded)
      ensures gl.nextBuffer == old(gl.nextBuffer) + (if ok then BufferCount(scene.value.meshes) else 0)
      ensures BuffersGrown(old(gl.buffers), gl.buffers, old(gl.nextBuffer), gl.nextBuffer)
      ensures scene.None? ==>
        textureNameMap == old(textureNameMap) && gl.nextTexture == old(gl.nextTexture) && gl.textures == old(gl.textures)
      ensures scene.Some? ==>
        var keys := DiffuseNames(scene.value.materials);
        var dir := directoryOf(modelFilename);
        && textureNameMap == AssignedTable(keys, old(gl.nextTexture), dir, decodable)
        && gl.nextTexture == old(gl.nextTexture) + |keys|
        && TexturesUploaded(old(gl.textures), gl.textures, keys, old(gl.nextTexture), dir, decodable)
      ensures ok ==>
        && isObjectLoaded
        && |modelMeshes| == |old(modelMeshes)| + |scene.value.meshes|
        && modelMeshes[..|old(modelMeshes)|] == old(modelMeshes)
        && RecordsBuilt(modelMeshes[|old(modelMeshes)|..], scene.value.meshes, scene.value.materials,
                        textureNameMap, gl.buffers, old(gl.nextBuffer))
    {
      scene := readFile(modelFilename);
      if scene.None? {
        return false;
      }
      ok := LoadTexturesToGL(modelFilename, directoryOf, decodable, gl);
      if !ok {
        return false;
      }
      LookupsAfterSuccess(scene.value.meshes, scene.value.materials, old(gl.nextTexture),
                          directoryOf(modelFilename), decodable);
      GenerateGLBuffers(gl);
      isObjectLoaded := true;
      return true;
    }

    /** Drops the records and the loaded flag; does nothing when nothing is loaded, so a
        second call changes nothing. GL buffers and textures are not deleted. */
    method Delete3DModel()
      requires Valid()
      modifies this
      ensures !isObjectLoaded && Valid()
      ensures modelMeshes == if old(isObjectLoaded) then [] else old(modelMeshes)
      ensures scene == old(scene) && textureNameMap == old(textureNameMap)
    {
      if isObjectLoaded {
        modelMeshes := [];
        isObjectLoaded := false;
      }
    }

    /** The GL commands of one frame: none before a model is loaded; otherwise the frame
        set-up, then for each record in list order its optional texture bind, its buffer and
        attribute set-up and its draw of numberOfFaces * 3 indices. */
    method Render3DModel() returns (cmds: seq<Command>)
      ensures cmds == FrameCommands(isObjectLoaded, modelMeshes)
    {
      if !isObjectLoaded {
        return [];
      }
      cmds := [Clear, UseProgram, SetMvp, ActivateTextureUnit0, SetSampler];
      var numberOfLoadedMeshes := |modelMeshes|;
      var n := 0;
      while n < numberOfLoadedMeshes
        invariant 0 <= n <= numberOfLoadedMeshes
        invariant cmds == Preamble + MeshesCommands(modelMeshes[..n])
      {
        var rec := modelMeshes[n];
        var meshCmds: seq<Command> := [];
        if rec.textureIndex != 0 {
          meshCmds := [BindTexture(rec.textureIndex)];
        }
        meshCmds := meshCmds + [
          BindElementBuffer(rec.faceBuffer),
          BindArrayBuffer(rec.vertexBuffer), EnableAttribute(VertexPosition), AttributeLayout(VertexPosition, 3),
          BindArrayBuffer(rec.textureCoordBuffer), EnableAttribute(VertexUV), AttributeLayout(VertexUV, 2),
          DrawTriangles(rec.numberOfFaces * 3),
          BindArrayBuffer(0), BindElementBuffer(0)];
        assert meshCmds == MeshCommands(rec);
        cmds := cmds + meshCmds;
        assert modelMeshes[..n + 1][..n] == modelMeshes[..n];
        assert MeshesCommands(modelMeshes[..n + 1]) == MeshesCommands(modelMeshes[..n]) + MeshCommands(rec);
        n := n + 1;
      }
      assert modelMeshes[..n] == modelMeshes;
    }
  }

  /** Load3DModel returns true: the import succeeded and every texture decoded. */
  ghost predicate LoadSucceeds(imported: Option<Scene>, dir: string, decodable: set<string>) {
    imported.Some? && AllDecode(DiffuseNames(imported.value.materials), dir, decodable)
  }

  /** Allocating more buffers does not disturb what earlier records name. */
  lemma RecordsKeepBuffers(recs: seq<MeshInfo>, meshes: seq<Mesh>, k: nat, mats: seq<Material>, table: map<string, Name>,
                           before: map<Name, BufferData>, after: map<Name, BufferData>, b0: Name, from: Name, to: Name)
    requires RecordsUpTo(recs, meshes, k, mats, table, before, b0)
    requires BuffersGrown(before, after, from, to)
    ensures RecordsUpTo(recs, meshes, k, mats, table, after, b0)
  {
  }

  /** The state of GenerateGLBuffers' loop after n meshes: one record per mesh so far, the
      lookups of those meshes in the table, and their buffers allocated from b0 on. */
  ghost predicate MeshesBuilt(built: seq<MeshInfo>, meshes: seq<Mesh>, n: nat, mats: seq<Material>,
                              table0: map<string, Name>, table: map<string, Name>,
                              buffers0: map<Name, BufferData>, buffers: map<Name, BufferData>, b0: Name, next: Name) {
    && n <= |meshes| && |built| == n
    && RecordsUpTo(built, meshes, n, mats, table0, buffers, b0)
    && table == TableAfterLookups(table0, meshes[..n], mats)
    && next == b0 + BufferCount(meshes[..n])
    && BuffersGrown(buffers0, buffers, b0, next)
  }

  /** What one iteration of the mesh loop does: rec is prev with the buffers of mesh
      (allocated from next on, to next') and the texture lookup of mat, where operator[]
      inserts a missing first filename with 0, taking table to table'. */
  ghost predicate MeshRecordBuilt(rec: MeshInfo, prev: MeshInfo, mesh: Mesh, mat: Material,
                                  table: map<string, Name>, table': map<string, Name>,
                                  buffers: map<Name, BufferData>, buffers': map<Name, BufferData>,
                                  next: Name, next': Name) {
    && rec.numberOfFaces == |mesh.faces|
    && BuffersOf(rec, mesh, buffers', next, next') && Inherits(rec, prev, mesh)
    && next' == next + NewBuffers(mesh) && BuffersGrown(buffers, buffers', next, next')
    && (mat.GetTexture(0).None? ==> table' == table && rec.textureIndex == 0)
    && (mat.GetTexture(0).Some? ==>
          var f := mat.GetTexture(0).value;
          && table' == (if f in table then table else table[f := 0])
          && rec.textureIndex == (if f in table then table[f] else 0))
  }

  /** One iteration of the mesh loop keeps the loop state with mesh n done. */
  lemma MeshStep(built: seq<MeshInfo>, meshes: seq<Mesh>, n: nat, mats: seq<Material>,
                 table0: map<string, Name>, table: map<string, Name>, table': map<string, Name>,
                 buffers0: map<Name, BufferData>, buffers: map<Name, BufferData>, buffers': map<Name, BufferData>,
                 b0: Name, next: Name, next': Name, prev: MeshInfo, rec: MeshInfo)
    requires MaterialsExist(meshes, mats) && n < |meshes|
    requires MeshesBuilt(built, meshes, n, mats, table0, table, buffers0, buffers, b0, next)
    requires n > 0 ==> prev == built[n - 1]
    requires MeshRecordBuilt(rec, prev, meshes[n], mats[meshes[n].materialIndex], table, table',
                             buffers, buffers', next, next')
    ensures MeshesBuilt(built + [rec], meshes, n + 1, mats, table0, table', buffers0, buffers', b0, next')
  {
    var mat := mats[meshes[n].materialIndex];
    if mat.GetTexture(0).Some? {
      LookupWithTexture(table0, meshes, mats, n, mat.GetTexture(0).value);
    } else {
      LookupWithoutTexture(table0, meshes, mats, n);
    }
    BuffersGrownTrans(buffers0, buffers, buffers', b0, next, next');
    RecordsKeepBuffers(built, meshes, n, mats, table0, buffers, buffers', b0, next, next');
    RecordsStep(built, meshes, mats, table0, buffers', b0, n, rec);
  }

  /** The record built for mesh n extends the records of the meshes before it. */
  lemma RecordsStep(recs: seq<MeshInfo>, meshes: seq<Mesh>, mats: seq<Material>, table: map<string, Name>,
                    buffers: map<Name, BufferData>, b0: Name, n: nat, rec: MeshInfo)
    requires n < |meshes|
    requires RecordsUpTo(recs, meshes, n, mats, table, buffers, b0)
    requires rec.numberOfFaces == |meshes[n].faces|
    requires rec.textureIndex == MeshTexture(table, mats[meshes[n].materialIndex])
    requires BuffersOf(rec, meshes[n], buffers, b0 + BufferCount(meshes[..n]),
                       b0 + BufferCount(meshes[..n]) + NewBuffers(meshes[n]))
    requires n > 0 ==> Inherits(rec, recs[n - 1], meshes[n])
    ensures BufferCount(meshes[..n + 1]) == BufferCount(meshes[..n]) + NewBuffers(meshes[n])
    ensures RecordsUpTo(recs + [rec], meshes, n + 1, mats, table, buffers, b0)
  {
    assert meshes[..n + 1][..n] == meshes[..n];
    assert RecordFor(rec, meshes, n, mats, table, buffers, b0);
    var recs' := recs + [rec];
    forall j | 0 <= j < n + 1
      ensures RecordFor(recs'[j], meshes, j, mats, table, buffers, b0)
    {
      if j < n {
        assert recs'[j] == recs[j];
      }
    }
    forall j | 0 < j < n + 1
      ensures Inherits(recs'[j], recs'[j - 1], meshes[j])
    {
      if j < n {
        assert recs'[j] == recs[j] && recs'[j - 1] == recs[j - 1];
      }
    }
  }

  /** A mesh whose material has no diffuse texture leaves the table alone and gets 0. */
  lemma LookupWithoutTexture(table0: map<string, Name>, meshes: seq<Mesh>, mats: seq<Material>, n: nat)
    requires MaterialsExist(meshes, mats) && n < |meshes|
    requires mats[meshes[n].materialIndex].GetTexture(0).None?
    ensures MaterialsExist(meshes[..n], mats) && MaterialsExist(meshes[..n + 1], mats)
    ensures TableAfterLookups(table0, meshes[..n + 1], mats) == TableAfterLookups(table0, meshes[..n], mats)
    ensures MeshTexture(table0, mats[meshes[n].materialIndex]) == 0
  {
    FirstNamesStep(meshes, mats, n);
  }

  /** A lookup of the first filename f: operator[] adds f with 0 when it is missing, and the
      value found is the original table's name for f, or 0 when f was not in it. */
  lemma LookupWithTexture(table0: map<string, Name>, meshes: seq<Mesh>, mats: seq<Material>, n: nat, f: string)
    requires MaterialsExist(meshes, mats) && n < |meshes|
    requires mats[meshes[n].materialIndex].GetTexture(0) == Some(f)
    ensures MaterialsExist(meshes[..n], mats) && MaterialsExist(meshes[..n + 1], mats)
    ensures var before := TableAfterLookups(table0, meshes[..n], mats);
      && TableAfterLookups(table0, meshes[..n + 1], mats) == (if f in before then before else before[f := 0])
      && (if f in before then before[f] else 0) == MeshTexture(table0, mats[meshes[n].materialIndex])
  {
    FirstNamesStep(meshes, mats, n);
    var before := TableAfterLookups(table0, meshes[..n], mats);
    var goal := TableAfterLookups(table0, meshes[..n + 1], mats);
    var after := if f in before then before else before[f := 0];
    assert goal.Keys == after.Keys;
    forall x | x in goal
      ensures goal[x] == after[x]
    {
    }
  }

  /** The key picked next is the least remaining one, so it has exactly |done| keys below it. */
  lemma NextRank(keys: set<string>, done: set<string>, remaining: set<string>, f: string)
    requires remaining <= keys && done == keys - remaining
    requires forall d, r :: d in done && r in remaining ==> LexLess(d, r)
    requires IsLeast(remaining, f)
    ensures Below(keys, f) == done
  {
    forall o | o in Below(keys, f)
      ensures o in done
    {
      LexLessTotal(o, f);
    }
  }

  /** The keys in done are behind the ascending walk: they are exactly the keys not
      remaining, each sorts before every remaining key, and each decoded. */
  ghost predicate WalkOrder(keys: set<string>, dir: string, decodable: set<string>,
                            done: set<string>, remaining: set<string>) {
    && remaining <= keys && done == keys - remaining
    && (forall d, r :: d in done && r in remaining ==> LexLess(d, r))
    && (forall d :: d in done ==> TexturePath(dir, d) in decodable)
  }

  /** Each key behind the walk holds the name of its rank, every other key still holds 0. */
  ghost predicate WalkTable(keys: set<string>, base: Name, done: set<string>, remaining: set<string>,
                            table: map<string, Name>) {
    && table.Keys == keys
    && (forall k :: k in done ==> k in table && table[k] == base + Rank(keys, k))
    && (forall k :: k in remaining ==> k in table && table[k] == 0)
  }

  /** The texture store holds the old objects unchanged, plus the next |done| names, each key
      behind the walk's name holding the image of its path. */
  ghost predicate WalkTextures(keys: set<string>, base: Name, dir: string, done: set<string>,
                               before: map<Name, TextureImage>, after: map<Name, TextureImage>) {
    && (forall t :: t in before ==> t < base)
    && (forall t :: t in after <==> t in before || base <= t < base + |done|)
    && (forall t :: t in before ==> after[t] == before[t])
    && (forall d :: d in done ==>
          Rank(keys, d) < |done| && after[base + Rank(keys, d)] == Image(TexturePath(dir, d)))
  }

  /** What the ascending walk has established when the keys in done are behind it. */
  ghost predicate WalkInvariant(keys: set<string>, base: Name, dir: string, decodable: set<string>,
                                done: set<string>, remaining: set<string>, table: map<string, Name>,
                                before: map<Name, TextureImage>, after: map<Name, TextureImage>) {
    && WalkOrder(keys, dir, decodable, done, remaining)
    && WalkTable(keys, base, done, remaining, table)
    && WalkTextures(keys, base, dir, done, before, after)
  }

  /** Taking the least remaining key f, giving it the next name and uploading its image
      keeps the walk invariant with f moved to done. */
  lemma WalkStep(keys: set<string>, base: Name, dir: string, decodable: set<string>,
                 done: set<string>, remaining: set<string>, table: map<string, Name>,
                 before: map<Name, TextureImage>, after: map<Name, TextureImage>, f: string, name: Name)
    requires WalkInvariant(keys, base, dir, decodable, done, remaining, table, before, after)
    requires IsLeast(remaining, f) && TexturePath(dir, f) in decodable && name == base + |done|
    ensures Rank(keys, f) == |done|
    ensures WalkInvariant(keys, base, dir, decodable, done + {f}, remaining - {f},
                          table[f := name], before, after[name := Image(TexturePath(dir, f))])
  {
    NextRank(keys, done, remaining, f);
    StepOrder(keys, dir, decodable, done, remaining, f);
    StepTable(keys, base, done, remaining, table, f, name);
    StepTextures(keys, base, dir, done, before, after, f, name);
  }

  lemma StepOrder(keys: set<string>, dir: string, decodable: set<string>,
                  done: set<string>, remaining: set<string>, f: string)
    requires WalkOrder(keys, dir, decodable, done, remaining)
    requires IsLeast(remaining, f) && TexturePath(dir, f) in decodable
    ensures WalkOrder(keys, dir, decodable, done + {f}, remaining - {f})
  {
    forall d, r | d in done + {f} && r in remaining - {f}
      ensures LexLess(d, r)
    {
    }
  }

  lemma StepTable(keys: set<string>, base: Name, done: set<string>, remaining: set<string>,
                  table: map<string, Name>, f: string, name: Name)
    requires WalkTable(keys, base, done, remaining, table)
    requires f in keys && f in remaining && Rank(keys, f) == |done| && name == base + |done|
    ensures WalkTable(keys, base, done + {f}, remaining - {f}, table[f := name])
  {
  }

  /** The next name is new: below it are only the old objects and the ranks of done. */
  lemma StepTextures(keys: set<string>, base: Name, dir: string, done: set<string>,
                     before: map<Name, TextureImage>, after: map<Name, TextureImage>, f: string, name: Name)
    requires WalkTextures(keys, base, dir, done, before, after)
    requires f in keys && done <= keys && f !in done && Rank(keys, f) == |done| && name == base + |done|
    ensures |done + {f}| == |done| + 1
    ensures WalkTextures(keys, base, dir, done + {f}, before, after[name := Image(TexturePath(dir, f))])
  {
    forall d | d in done
      ensures Rank(keys, d) != |done|
    {
      RankInjective(keys, d, f);
    }
  }

  /** The walk stops at f, the least remaining key, whose image does not decode: the table,
      once f holds its name, is AssignedTable, and the uploads are those of the keys before f. */
  lemma WalkStopped(keys: set<string>, base: Name, dir: string, decodable: set<string>,
                    done: set<string>, remaining: set<string>, table: map<string, Name>,
                    before: map<Name, TextureImage>, after: map<Name, TextureImage>, f: string, name: Name)
    requires WalkInvariant(keys, base, dir, decodable, done, remaining, table, before, after)
    requires IsLeast(remaining, f) && TexturePath(dir, f) !in decodable && name == base + |done|
    ensures !AllDecode(keys, dir, decodable)
    ensures table[f := name] == AssignedTable(keys, base, dir, decodable)
    ensures TexturesUploaded(before, after, keys, base, dir, decodable)
  {
    NextRank(keys, done, remaining, f);
    StoppedTable(keys, base, dir, decodable, done, remaining, table, f, name);
    StoppedTextures(keys, base, dir, decodable, done, remaining, before, after, f);
  }

  lemma StoppedTable(keys: set<string>, base: Name, dir: string, decodable: set<string>,
                     done: set<string>, remaining: set<string>, table: map<string, Name>, f: string, name: Name)
    requires WalkOrder(keys, dir, decodable, done, remaining) && WalkTable(keys, base, done, remaining, table)
    requires IsLeast(remaining, f) && TexturePath(dir, f) !in decodable && Below(keys, f) == done
    requires name == base + |done|
    ensures !AllDecode(keys, dir, decodable)
    ensures table[f := name] == AssignedTable(keys, base, dir, decodable)
  {
    assert Reached(keys, f, dir, decodable);
    AbortAtFirstFailure(keys, base, dir, decodable, f);
    var walked := AssignedTable(keys, base, dir, decodable);
    var stopped := table[f := name];
    forall k | k in keys
      ensures stopped[k] == walked[k]
    {
      if k == f {
        LexLessIrreflexive(f);
      } else if k in done {
        assert LexLess(k, f);
        LexLessTotal(k, f);
      } else {
        assert k in remaining && LexLess(f, k);
      }
    }
    assert walked.Keys == keys == stopped.Keys;
  }

  lemma StoppedTextures(keys: set<string>, base: Name, dir: string, decodable: set<string>,
                        done: set<string>, remaining: set<string>,
                        before: map<Name, TextureImage>, after: map<Name, TextureImage>, f: string)
    requires WalkOrder(keys, dir, decodable, done, remaining) && WalkTextures(keys, base, dir, done, before, after)
    requires IsLeast(remaining, f) && TexturePath(dir, f) !in decodable && Below(keys, f) == done
    ensures TexturesUploaded(before, after, keys, base, dir, decodable)
  {
    assert Reached(keys, f, dir, decodable);
    AbortAtFirstFailure(keys, base, dir, decodable, f);
    assert UploadedKeys(keys, dir, decodable) == done;
  }

  /** The walk ran out of keys: every image decoded, and the table and the uploads are those
      of a complete walk. */
  lemma WalkCompleted(keys: set<string>, base: Name, dir: string, decodable: set<string>,
                      done: set<string>, table: map<string, Name>,
                      before: map<Name, TextureImage>, after: map<Name, TextureImage>)
    requires WalkInvariant(keys, base, dir, decodable, done, {}, table, before, after)
    ensures AllDecode(keys, dir, decodable)
    ensures table == AssignedTable(keys, base, dir, decodable)
    ensures TexturesUploaded(before, after, keys, base, dir, decodable)
  {
    CompletedTable(keys, base, dir, decodable, done, table);
    CompletedTextures(keys, base, dir, decodable, done, before, after);
  }

  lemma CompletedTable(keys: set<string>, base: Name, dir: string, decodable: set<string>,
                       done: set<string>, table: map<string, Name>)
    requires WalkOrder(keys, dir, decodable, done, {}) && WalkTable(keys, base, done, {}, table)
    ensures AllDecode(keys, dir, decodable)
    ensures table == AssignedTable(keys, base, dir, decodable)
  {
    assert done == keys;
    var walked := AssignedTable(keys, base, dir, decodable);
    forall k | k in keys
      ensures Reached(keys, k, dir, decodable) && table[k] == walked[k]
    {
    }
    assert walked.Keys == keys;
  }

  lemma CompletedTextures(keys: set<string>, base: Name, dir: string, decodable: set<string>,
                          done: set<string>, before: map<Name, TextureImage>, after: map<Name, TextureImage>)
    requires WalkOrder(keys, dir, decodable, done, {}) && WalkTextures(keys, base, dir, done, before, after)
    ensures TexturesUploaded(before, after, keys, base, dir, decodable)
  {
    assert done == keys;
    assert UploadedKeys(keys, dir, decodable) == keys;
  }
}
