# AssimpOpengl model loader: a Dafny model

This project models the model-loading core of an Android OpenGL ES viewer. The viewer imports a
3D model through Assimp, uploads its textures and mesh buffers to the GPU, and draws it every
frame. The model covers two pieces of the viewer.

- `AssimpLoader` is modelled as the class `Loader.AssimpLoader`. It covers:
  - the texture-name table (`std::map<std::string, GLuint>`), filled with the distinct diffuse
    filenames and then given generated texture names in key order;
  - the upload walk, which stops at the first image that does not decode;
  - the mesh records: flattened face indices, packed UV coordinates, and the buffer fields
    inherited from the reused `newMeshInfo` struct;
  - the texture lookup through `operator[]`, which inserts a missing filename with 0;
  - the `isObjectLoaded` / `modelMeshes` lifecycle;
  - the GL command trace of one frame.
- `ModelAssimp` covers the texture-list tokenizer `split`, modelled as `Tokenizer.Split`, and
  the reload sequence of `ResetModel`.

The module layout:

- `Gl` is an abstract GPU. It has a name counter per object kind (starting at 1), a store per
  object kind and the commands the renderer issues.
- `SceneModel` is the imported scene.
- `KeyOrder` is the `std::string` order. The key of rank i is the key with i keys below it.
- `MeshBuffers` holds the two layout loops.
- `LoaderSpec` states, on values, what the loader computes.
- `Render` is the frame trace and its properties.
- `Loader`, `Tokenizer` and `App` hold the imperative code.

Everything outside the program is a parameter of the methods that use it:

| call in the source | parameter | type |
|---|---|---|
| Assimp import | `readFile` | `string -> Option<Scene>` |
| `GetDirectoryName` | `directoryOf` | `string -> string` |
| OpenCV decode | `decodable` | `set<string>`: the paths that decode |
| `ExtractAssetReturnFilename` | `assets` | `map<string, string>`: asset name to extracted path |

## Model

| member | source | states |
|---|---|---|
| MeshBuffers.FlatFaces | app/src/main/jni/nativeCode/common/assimpLoader.cpp:74 | the face index array has 3 · mNumFaces entries |
| MeshBuffers.FlatFacesAt | app/src/main/jni/nativeCode/common/assimpLoader.cpp:76-83 | entry 3t+k of the face index array is index k of face t |
| MeshBuffers.FlattenFaces | app/src/main/jni/nativeCode/common/assimpLoader.cpp:74-83 | the face loop fills a fresh array with exactly the flattened face indices |
| MeshBuffers.PackUVs | app/src/main/jni/nativeCode/common/assimpLoader.cpp:115 | the UV array has 2 · mNumVertices entries |
| MeshBuffers.PackUVsAt | app/src/main/jni/nativeCode/common/assimpLoader.cpp:116-119 | entry 2k is u and entry 2k+1 is v of coordinate k; the third component is dropped |
| MeshBuffers.PackTextureCoords | app/src/main/jni/nativeCode/common/assimpLoader.cpp:115-119 | the UV loop fills a fresh array with exactly the packed coordinates |
| Gl.Gpu.GenBuffer | app/src/main/jni/nativeCode/common/assimpLoader.cpp:89 | glGenBuffers returns a fresh non-zero name and changes no stored object |
| Gl.Gpu.BufferStore | app/src/main/jni/nativeCode/common/assimpLoader.cpp:90-93 | glBufferData replaces the contents of exactly one buffer |
| Gl.Gpu.GenTextures | app/src/main/jni/nativeCode/common/assimpLoader.cpp:202-203 | glGenTextures(n) returns n fresh non-zero names, in generation order, and changes no stored texture |
| Gl.Gpu.TexImage | app/src/main/jni/nativeCode/common/assimpLoader.cpp:231-238 | glTexImage2D sets the image of exactly one texture |
| SceneModel.DiffuseNamesMembers | app/src/main/jni/nativeCode/common/assimpLoader.cpp:157-179 | a filename is a discovered key if and only if some material lists it at some diffuse index |
| KeyOrder.LexLessTotal | app/src/main/jni/nativeCode/common/assimpLoader.cpp:210-212 | the map's key order is total and asymmetric |
| KeyOrder.LeastExists | app/src/main/jni/nativeCode/common/assimpLoader.cpp:210-212 | a non-empty key set has a least key, so the ascending walk always has a next key |
| KeyOrder.RankInjective | app/src/main/jni/nativeCode/common/assimpLoader.cpp:210-216 | different keys have different ranks, and every rank is below the key count |
| Loader.BuildMeshBuffers | app/src/main/jni/nativeCode/common/assimpLoader.cpp:84-128 | numberOfFaces is the face count; each buffer the mesh has is new and holds the mesh's data; the other buffer fields keep the previous record's values; buffers existing before are untouched |
| Loader.AssimpLoader.BuildMeshRecord | app/src/main/jni/nativeCode/common/assimpLoader.cpp:70-143 | one mesh-loop iteration: the buffer facts of BuildMeshBuffers plus the texture lookup of its material |
| Loader.AssimpLoader.MaterialTexture | app/src/main/jni/nativeCode/common/assimpLoader.cpp:135-143 | no diffuse texture gives 0 and leaves the table alone; otherwise the table's value for the first filename, or 0 with that key inserted when it is missing |
| Loader.MeshStep | app/src/main/jni/nativeCode/common/assimpLoader.cpp:68-145 | one iteration extends the loop state (records, table after lookups, buffer count) by mesh n |
| Loader.LookupWithTexture | app/src/main/jni/nativeCode/common/assimpLoader.cpp:137-139 | a lookup of the first filename adds that key with 0 exactly when it is missing |
| Loader.LookupWithoutTexture | app/src/main/jni/nativeCode/common/assimpLoader.cpp:141-143 | a material without a diffuse texture gives 0 and adds no key |
| Loader.AssimpLoader.GenerateGLBuffers | app/src/main/jni/nativeCode/common/assimpLoader.cpp:58-147 | appends exactly one record per scene mesh, in mesh order, keeping the earlier records; each record has the mesh's face count, its texture lookup and its buffers, each newly generated for that mesh (after the buffers of every earlier mesh); the table gains every missing first filename with 0 |
| LoaderSpec.LaterMeshesGetNewerBuffers | app/src/main/jni/nativeCode/common/assimpLoader.cpp:87-125 | a buffer a later mesh writes is generated after the same kind of buffer an earlier mesh writes, so two records never share a written buffer even when their meshes hold equal data |
| Loader.AssimpLoader.DiscoverTextureNames | app/src/main/jni/nativeCode/common/assimpLoader.cpp:155-179 | the table's keys are exactly the distinct diffuse filenames of all materials, all holding 0 |
| Loader.WalkStep | app/src/main/jni/nativeCode/common/assimpLoader.cpp:212-238 | the least remaining key has rank i, gets the i-th name and its image; the walk invariant holds with that key done |
| Loader.WalkStopped | app/src/main/jni/nativeCode/common/assimpLoader.cpp:241-248 | at a key that does not decode, the table and the uploads are those of an abort at the first failure |
| Loader.WalkCompleted | app/src/main/jni/nativeCode/common/assimpLoader.cpp:252-254 | when no keys remain, every image decoded and every key holds the name of its rank |
| Loader.AssimpLoader.AssignTextureNames | app/src/main/jni/nativeCode/common/assimpLoader.cpp:198-254 | generates one name per key; the result is true if and only if every image decodes; the table and uploads follow the ascending walk |
| LoaderSpec.HandlesOnSuccess | app/src/main/jni/nativeCode/common/assimpLoader.cpp:210-216 | on success the k-th key holds the k-th generated name, a non-zero name; two keys share a name only if they are the same key; every key was uploaded |
| LoaderSpec.FirstFailureExists | app/src/main/jni/nativeCode/common/assimpLoader.cpp:212-249 | when some image does not decode, the walk reaches a first failing key |
| LoaderSpec.AbortAtFirstFailure | app/src/main/jni/nativeCode/common/assimpLoader.cpp:216-249 | at the first failing key f, keys up to f hold their names, keys after f hold 0, and only the keys before f were uploaded |
| Loader.AssimpLoader.LoadTexturesToGL | app/src/main/jni/nativeCode/common/assimpLoader.cpp:152-255 | the result is true if and only if every diffuse texture at dir + "/" + filename decodes; the table and the texture store are those of the ascending walk |
| LoaderSpec.LookupsAfterSuccess | app/src/main/jni/nativeCode/common/assimpLoader.cpp:135-143 | after a successful texture walk, no lookup inserts a key; a mesh with a diffuse texture gets the non-zero name of its first file, and a mesh without one gets 0 |
| Loader.AssimpLoader.Load3DModel | app/src/main/jni/nativeCode/common/assimpLoader.cpp:261-285 | the result is true if and only if the import succeeds and every texture decodes; on failure no record is added and the loaded flag is unchanged; on success the flag is set and one record per mesh is appended |
| Loader.AssimpLoader.Delete3DModel | app/src/main/jni/nativeCode/common/assimpLoader.cpp:290-301 | afterwards nothing is loaded and no records remain; when nothing was loaded, nothing changes, so a second call is a no-op |
| Loader.AssimpLoader.constructor | app/src/main/jni/nativeCode/common/assimpLoader.cpp:26-41 | no scene, nothing loaded, no records |
| Loader.AssimpLoader.Render3DModel | app/src/main/jni/nativeCode/common/assimpLoader.cpp:306-364 | the issued commands are the frame trace of the records: none when not loaded |
| Render.TexturedRecords | app/src/main/jni/nativeCode/common/assimpLoader.cpp:329-331 | every texture bound by the renderer is non-zero |
| Render.MeshDraws | app/src/main/jni/nativeCode/common/assimpLoader.cpp:328-358 | one record issues exactly one draw, of numberOfFaces · 3 indices |
| Render.MeshesDraws | app/src/main/jni/nativeCode/common/assimpLoader.cpp:324-360 | the mesh loop draws every record once, in list order |
| Render.FrameDrawsEveryRecord | app/src/main/jni/nativeCode/common/assimpLoader.cpp:312-360 | a loaded frame's draw counts are exactly numberOfFaces · 3 of each record, in record order |
| Render.MeshTextureBinds | app/src/main/jni/nativeCode/common/assimpLoader.cpp:329-331 | one record binds its texture only when textureIndex is non-zero, and binds nothing else |
| Render.MeshesTextureBinds | app/src/main/jni/nativeCode/common/assimpLoader.cpp:324-360 | the mesh loop binds the textures of the textured records, in order |
| Render.FrameBindsRecordTextures | app/src/main/jni/nativeCode/common/assimpLoader.cpp:312-360 | a loaded frame binds exactly the non-zero textureIndex values, in record order |
| Tokenizer.WordLength | app/src/main/jni/nativeCode/modelAssimp/modelAssimp.cpp:89-97 | the token runs to the first separator or the end, and holds no separator |
| Tokenizer.IsSeparator | app/src/main/jni/nativeCode/modelAssimp/modelAssimp.cpp:78-83 | the inner for loop finds a match if and only if the character is one of the separators |
| Tokenizer.TokensSkip | app/src/main/jni/nativeCode/modelAssimp/modelAssimp.cpp:76-84 | skipping a separator loses no token |
| Tokenizer.TokenAt | app/src/main/jni/nativeCode/modelAssimp/modelAssimp.cpp:87-101 | s[i..j] is the next token when j is the next separator or the end |
| Tokenizer.Split | app/src/main/jni/nativeCode/modelAssimp/modelAssimp.cpp:68-104 | split returns exactly the tokens of s |
| Tokenizer.TokensNonEmpty | app/src/main/jni/nativeCode/modelAssimp/modelAssimp.cpp:98-101 | no token is empty |
| Tokenizer.TokensNoSeparator | app/src/main/jni/nativeCode/modelAssimp/modelAssimp.cpp:89-97 | no token contains a separator character |
| Tokenizer.TokensConcat | app/src/main/jni/nativeCode/modelAssimp/modelAssimp.cpp:73-102 | the tokens concatenated are s with every separator removed, in source order |
| Tokenizer.TokensOfWord | app/src/main/jni/nativeCode/modelAssimp/modelAssimp.cpp:89-101 | a non-empty separator-free string is one token |
| Tokenizer.TokensEdgeCases | app/src/main/jni/nativeCode/modelAssimp/modelAssimp.cpp:73-97 | an empty s gives no tokens; with no separators a non-empty s gives exactly [s] |
| Tokenizer.TokensSplitAtSeparator | app/src/main/jni/nativeCode/modelAssimp/modelAssimp.cpp:73-102 | a separator cuts s into two independent token lists, however many separators are adjacent |
| App.ModelAssimp.constructor | app/src/main/jni/nativeCode/modelAssimp/modelAssimp.cpp:30-42 | inits not done and no loader |
| App.ModelAssimp.PerformGLInits | app/src/main/jni/nativeCode/modelAssimp/modelAssimp.cpp:58-66 | a new loader with no scene, nothing loaded, no records and an empty texture table; inits done |
| App.ModelAssimp.ResetModel | app/src/main/jni/nativeCode/modelAssimp/modelAssimp.cpp:106-145 | before the inits nothing happens; otherwise it unloads first, and a missing object asset ends the call with nothing loaded and the GPU, scene and texture table unchanged; else the object name, the material name and every "&"-token of the texture list are looked up in that order, and the extracted object path is loaded: existing buffers are kept; no buffer is generated when the load fails, and BufferCount of the new scene's meshes are generated when it succeeds; an import failure leaves the texture table and texture store unchanged; an import success gives the table the ascending-walk names of the new scene's diffuse filenames, one texture name per key, and those textures' images; the model is loaded if and only if that load succeeds, and its records are exactly those of the new scene, texture names included |

## Left out

- Shader loading and the attribute and uniform lookups in the `AssimpLoader` constructor are
  external helpers. The model names the attributes and issues SetMvp without the matrix value.
- The camera, gestures and viewport of `ModelAssimp` are thin float wrappers: `Render`,
  `SetViewport`, the tap, scroll, scale and move handlers, and the camera reset in `ResetModel`.
- The destructors of both classes free memory only. `glTest.cpp` is a smoke test of GL calls.
- Logging, and `CheckGLError`.
- The buffer binds during upload are folded into `Gl.Gpu.BufferStore`:
  - the buffer unbinds of `GenerateGLBuffers` (lines 131-132) are not recorded;
  - the texture bind and `glTexParameteri` of the upload are part of `Gl.Gpu.TexImage`.

  Only the frame renderer's commands form a trace.
- `MyGLInits` in `PerformGLInits` sets up GL state only.
- The Assimp import and its processing preset are the `readFile` parameter.
- OpenCV decoding is the `decodable` set. The BGR-to-RGB conversion and the vertical flip are
  pixel work, so a texture holds the path its image came from.
- `GetDirectoryName` is the opaque `directoryOf` parameter.
- `ExtractAssetReturnFilename` is the `assets` map. Its results for the material and texture
  names are ignored by the source, so the model only records that those names were looked up.
  Extraction is what creates the files that the import and `imread` open later, which is why
  the lookups come before `Load3DModel`. `readFile` and `decodable` describe the file system
  after extraction.
- Vertex and UV values are opaque `real` values. Floating-point behaviour does not matter here.
- Faces always have 3 indices in the model. The source copies 3 indices from every face. The
  import preset triangulates polygons but keeps point and line faces. On a mesh with such
  faces, the `memcpy` at `assimpLoader.cpp:80` reads past the face's index array; the model
  does not represent those faces.
- GL names and counts are unbounded naturals. The model does not capture the 32-bit unsigned
  wrap-around of `mNumFaces * 3` or of the byte sizes passed to `glBufferData`.
- Heap management is not modelled: `new` and `delete[]` for `faceArray`, `textureCoords` and
  `textureGLNames`.
- GL buffers and textures are never deleted. The model captures this: the buffer and texture
  stores only grow, and `Delete3DModel` leaves the GPU alone.
- Generated GL names come from one counter per object kind, so the names of one
  `glGenTextures` call are consecutive. GL itself promises only names not in use. In the
  source's terms, the key of rank i holds `textureGLNames[i]`, the i-th name that call returned.
  The model states it as the counter's value at the call plus i.
- Strings are sequences of characters, and `std::string` is a sequence of bytes. `split`
  compares bytes, so on UTF-8 text with a non-ASCII separator it can cut a character in two;
  the model cannot. The model matches the source for ASCII separators, and the only use,
  `ResetModel`, splits on "&". The key order matches for UTF-8 filenames, because unsigned
  byte order of UTF-8 is code-point order.
- Loader.AssimpLoader.Delete3DModel: requires the class invariant (no records while nothing is
  loaded). Every constructor and every public operation (`Load3DModel`, `Delete3DModel`) keeps
  it. `GenerateGLBuffers` breaks it when called while nothing is loaded, until `Load3DModel`
  sets the flag just after it. The source states the invariant nowhere.
- Loader.AssimpLoader.GenerateGLBuffers: requires a well-formed scene, as the importer
  guarantees: material indices in range and vertex arrays of mNumVertices entries.
- Loader.AssimpLoader.AssignTextureNames: requires every table value to be 0, which the
  discovery loop just before it establishes.
- The uninitialised `newMeshInfo` struct is modelled as an arbitrary first value. When the first
  mesh lacks faces, positions or UVs, its record's matching buffer fields are unconstrained, and
  the frame trace binds whatever value those fields hold. The model does not pin that value
  down.
