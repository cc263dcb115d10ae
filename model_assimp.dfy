/** ModelAssimp: owns the loader once GL is initialised and reloads the model on request:
    unload first, then look up the object asset, then the material and texture assets, then
    load. */
module App {
  import opened Wrappers
  import opened Gl
  import opened SceneModel
  import opened LoaderSpec
  import opened Loader
  import opened Tokenizer

  class ModelAssimp {
    var initsDone: bool
    var modelObject: AssimpLoader?

    /** After the GL inits there is a loader, and it keeps its own invariant. */
    ghost predicate Valid()
      reads this, modelObject
    {
      initsDone ==> modelObject != null && modelObject.Valid()
    }

    constructor ()
      ensures Valid() && !initsDone && modelObject == null
    {
      initsDone := false;
      modelObject := null;
    }

    /** Creates the loader; GL state set-up is not modelled. */
    method PerformGLInits()
      modifies this
      ensures Valid() && initsDone
      ensures fresh(modelObject) && !modelObject.isObjectLoaded && modelObject.modelMeshes == []
      ensures modelObject.scene == None && modelObject.textureNameMap == map[]
    {
      modelObject := new AssimpLoader();
      initsDone := true;
    }

    /** Reloads the model. Before the GL inits nothing happens. Otherwise the current model is
        unloaded first; a missing object asset ends the call there, leaving nothing loaded;
        else the material asset and each "&"-separated texture name are looked up in order
        and the extracted object path is loaded. `requested` lists the asset names looked up,
        in call order. `assets` maps an asset name to its extracted path. */
    method ResetModel(objFileName: string, mtlFileName: string, texFileName: string,
                      assets: map<string, string>, readFile: string -> Option<Scene>,
                      directoryOf: string -> string, decodable: set<string>, gl: Gpu)
      returns (requested: seq<string>)
      requires Valid() && gl.Valid()
      requires objFileName in assets && readFile(assets[objFileName]).Some? ==>
        readFile(assets[objFileName]).value.WellFormed()
      modifies modelObject, gl
      ensures Valid() && gl.Valid() && initsDone == old(initsDone) && modelObject == old(modelObject)
      ensures !initsDone ==> requested == [] && unchanged(gl) && (modelObject != null ==> unchanged(modelObject))
      ensures initsDone && objFileName !in assets ==>
        && requested == [objFileName]
        && !modelObject.isObjectLoaded && modelObject.modelMeshes == []
        && modelObject.scene == old(modelObject.scene)
        && modelObject.textureNameMap == old(modelObject.textureNameMap)
        && unchanged(gl)
      ensures initsDone && objFileName in assets ==>
        BuffersGrown(old(gl.buffers), gl.buffers, old(gl.nextBuffer), gl.nextBuffer)
      ensures initsDone && objFileName in assets && readFile(assets[objFileName]).None? ==>
        && modelObject.textureNameMap == old(modelObject.textureNameMap)
        && gl.nextTexture == old(gl.nextTexture) && gl.textures == old(gl.textures)
      ensures initsDone && objFileName in assets && readFile(assets[objFileName]).Some? ==>
        var path := assets[objFileName];
        var keys := DiffuseNames(readFile(path).value.materials);
        && modelObject.textureNameMap == AssignedTable(keys, old(gl.nextTexture), directoryOf(path), decodable)
        && gl.nextTexture == old(gl.nextTexture) + |keys|
        && TexturesUploaded(old(gl.textures), gl.textures, keys, old(gl.nextTexture), directoryOf(path), decodable)
      ensures initsDone && objFileName in assets ==>
        var path := assets[objFileName];
        var imported := readFile(path);
        && requested == [objFileName, mtlFileName] + Tokens(texFileName, "&")
        && modelObject.scene == imported
        && (modelObject.isObjectLoaded <==> LoadSucceeds(imported, directoryOf(path), decodable))
        && (!modelObject.isObjectLoaded ==> modelObject.modelMeshes == [])
        && (modelObject.isObjectLoaded ==>
              && |modelObject.modelMeshes| == |imported.value.meshes|
              && RecordsBuilt(modelObject.modelMeshes, imported.value.meshes, imported.value.materials,
                              modelObject.textureNameMap, gl.buffers, old(gl.nextBuffer)))
      ensures initsDone && objFileName in assets ==>
        gl.nextBuffer == old(gl.nextBuffer) +
          (if modelObject.isObjectLoaded then BufferCount(readFile(assets[objFileName]).value.meshes) else 0)
    {
      requested := [];
      if initsDone {
        modelObject.Delete3DModel();
        requested := requested + [objFileName];
        if objFileName !in assets {
          return;
        }
        var newObjFileNameStr := assets[objFileName];
        requested := requested + [mtlFileName];
        var texFileNameArray := Split(texFileName, "&");
        for i := 0 to |texFileNameArray|
          invariant requested == [objFileName, mtlFileName] + texFileNameArray[..i]
        {
          requested := requested + [texFileNameArray[i]];
        }
        assert texFileNameArray[..|texFileNameArray|] == texFileNameArray;
        ghost var unloaded := modelObject.modelMeshes;
        var ok := modelObject.Load3DModel(newObjFileNameStr, readFile, directoryOf, decodable, gl);
        assert modelObject.modelMeshes[|unloaded|..] == modelObject.modelMeshes;
      }
    }
  }
}
