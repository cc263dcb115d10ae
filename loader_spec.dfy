/** What AssimpLoader computes, stated on values: the texture-name table after LoadTexturesToGL,
    the textureIndex a mesh's lookup yields, and what each mesh record holds after
    GenerateGLBuffers. The class in loader.dfy is proved against these. */
module LoaderSpec {
  import opened Wrappers
  import opened Gl
  import opened SceneModel
  import opened MeshBuffers
  import opened KeyOrder

  /** The path a texture is read from: the model's directory, a slash, the filename as the
      material names it. */
  function TexturePath(dir: string, filename: string): string {
    dir + "/" + filename
  }

  /** Every key that sorts before k decoded, so the ascending walk got as far as k. */
  ghost predicate Reached(keys: set<string>, k: string, dir: string, decodable: set<string>) {
    forall o :: o in keys && LexLess(o, k) ==> TexturePath(dir, o) in decodable
  }

  /** Every texture decodes: LoadTexturesToGL returns true. */
  ghost predicate AllDecode(keys: set<string>, dir: string, decodable: set<string>) {
    forall k :: k in keys ==> TexturePath(dir, k) in decodable
  }

  /** The texture-name table after the ascending walk over `keys` with generated names
      base, base + 1, ...: a key the walk reached holds the name of its rank, a key after
      the first decode failure still holds 0. */
  ghost function AssignedTable(keys: set<string>, base: Name, dir: string, decodable: set<string>): map<string, Name> {
    map k | k in keys :: if Reached(keys, k, dir, decodable) then base + Rank(keys, k) else 0
  }

  /** The keys whose image was uploaded: reached and decoded. */
  ghost function UploadedKeys(keys: set<string>, dir: string, decodable: set<string>): set<string> {
    set k | k in keys && Reached(keys, k, dir, decodable) && TexturePath(dir, k) in decodable
  }

  /** The GL texture store after the walk: the old objects untouched, the first
      |UploadedKeys| generated names holding an image, and each uploaded key's object holding
      the image decoded from its path. */
  ghost predicate TexturesUploaded(before: map<Name, TextureImage>, after: map<Name, TextureImage>,
                                   keys: set<string>, base: Name, dir: string, decodable: set<string>) {
    && (forall t :: t in after <==> t in before || base <= t < base + |UploadedKeys(keys, dir, decodable)|)
    && (forall t :: t in before ==> after[t] == before[t])
    && (forall k :: k in UploadedKeys(keys, dir, decodable) ==>
          base + Rank(keys, k) in after && after[base + Rank(keys, k)] == Image(TexturePath(dir, k)))
  }

  /** On success every key holds a distinct non-zero name: the i-th key in ascending order
      holds the i-th generated name. Two materials naming one file therefore share its
      name, and different files never share one. */
  lemma HandlesOnSuccess(keys: set<string>, base: Name, dir: string, decodable: set<string>, a: string, b: string)
    requires AllDecode(keys, dir, decodable) && base >= 1
    requires a in keys && b in keys
    ensures AssignedTable(keys, base, dir, decodable)[a] == base + Rank(keys, a) != 0
    ensures a != b <==> AssignedTable(keys, base, dir, decodable)[a] != AssignedTable(keys, base, dir, decodable)[b]
    ensures UploadedKeys(keys, dir, decodable) == keys
  {
    RankInjective(keys, a, b);
  }

  /** When some texture does not decode there is a first failing key f in ascending order;
      the walk reached it. */
  lemma FirstFailureExists(keys: set<string>, dir: string, decodable: set<string>)
    requires !AllDecode(keys, dir, decodable)
    ensures exists f :: f in keys && TexturePath(dir, f) !in decodable && Reached(keys, f, dir, decodable)
  {
    var failing := set k | k in keys && TexturePath(dir, k) !in decodable;
    var w :| w in keys && TexturePath(dir, w) !in decodable;
    assert w in failing;
    LeastExists(failing);
    var f :| IsLeast(failing, f);
    forall o | o in keys && LexLess(o, f)
      ensures TexturePath(dir, o) in decodable
    {
      LexLessTotal(o, f);
    }
  }

  /** Abort at the first failure f: every key before f holds its name and was uploaded, f
      holds its name but has no image, every key after f keeps 0. */
  lemma AbortAtFirstFailure(keys: set<string>, base: Name, dir: string, decodable: set<string>, f: string)
    requires f in keys && TexturePath(dir, f) !in decodable && Reached(keys, f, dir, decodable)
    ensures !AllDecode(keys, dir, decodable)
    ensures forall k :: k in keys ==>
      AssignedTable(keys, base, dir, decodable)[k] == if LexLess(f, k) then 0 else base + Rank(keys, k)
    ensures UploadedKeys(keys, dir, decodable) == Below(keys, f)
  {
    forall k | k in keys
      ensures Reached(keys, k, dir, decodable) <==> !LexLess(f, k)
      ensures LexLess(k, f) ==> TexturePath(dir, k) in decodable
    {
      LexLessTotal(f, k);
      if !LexLess(f, k) {
        forall o | o in keys && LexLess(o, k)
          ensures TexturePath(dir, o) in decodable
        {
          if k != f {
            LexLessTransitive(o, k, f);
          }
        }
      }
    }
    forall k | k in UploadedKeys(keys, dir, decodable)
      ensures k in Below(keys, f)
    {
      LexLessTotal(f, k);
    }
    forall k | k in Below(keys, f)
      ensures k in UploadedKeys(keys, dir, decodable)
    {
      LexLessTotal(f, k);
    }
  }

  /** Every mesh names an existing material. */
  predicate MaterialsExist(meshes: seq<Mesh>, mats: seq<Material>) {
    forall n :: 0 <= n < |meshes| ==> meshes[n].materialIndex < |mats|
  }

  /** The textureIndex GenerateGLBuffers copies for a mesh with material mat: 0 without a
      diffuse texture; otherwise the table's name for the first diffuse file, and 0 when the
      table lacks it (operator[] then inserts it with 0). */
  function MeshTexture(table: map<string, Name>, mat: Material): Name {
    match mat.GetTexture(0)
    case None => 0
    case Some(f) => if f in table then table[f] else 0
  }

  /** The first diffuse filenames of the meshes' materials. */
  function FirstNames(meshes: seq<Mesh>, mats: seq<Material>): set<string>
    requires MaterialsExist(meshes, mats)
  {
    set n | 0 <= n < |meshes| && mats[meshes[n].materialIndex].GetTexture(0).Some?
      :: mats[meshes[n].materialIndex].GetTexture(0).value
  }

  /** The first diffuse filename of mat, when it has one, as a set. */
  function FirstName(mat: Material): set<string> {
    match mat.GetTexture(0)
    case None => {}
    case Some(f) => {f}
  }

  /** One more mesh adds at most its material's first filename. */
  lemma FirstNamesStep(meshes: seq<Mesh>, mats: seq<Material>, n: nat)
    requires MaterialsExist(meshes, mats) && n < |meshes|
    ensures MaterialsExist(meshes[..n], mats) && MaterialsExist(meshes[..n + 1], mats)
    ensures FirstNames(meshes[..n + 1], mats) == FirstNames(meshes[..n], mats) + FirstName(mats[meshes[n].materialIndex])
  {
    var longer := meshes[..n + 1];
    var shorter := meshes[..n];
    assert forall k :: 0 <= k < n ==> longer[k] == shorter[k] == meshes[k];
    assert longer[n] == meshes[n];
    var a := FirstNames(longer, mats);
    var b := FirstNames(shorter, mats);
    var c := FirstName(mats[meshes[n].materialIndex]);
    forall x | x in a
      ensures x in b + c
    {
      var k :| 0 <= k < n + 1 && mats[longer[k].materialIndex].GetTexture(0).Some?
        && x == mats[longer[k].materialIndex].GetTexture(0).value;
      if k < n {
        assert mats[shorter[k].materialIndex].GetTexture(0).value == x;
      }
    }
    forall x | x in b
      ensures x in a
    {
      var k :| 0 <= k < n && mats[shorter[k].materialIndex].GetTexture(0).Some?
        && x == mats[shorter[k].materialIndex].GetTexture(0).value;
      assert mats[longer[k].materialIndex].GetTexture(0).value == x;
    }
    forall x | x in c
      ensures x in a
    {
      assert mats[longer[n].materialIndex].GetTexture(0).value == x;
    }
  }

  /** The table after all mesh lookups: operator[] added every missing first filename with 0. */
  function TableAfterLookups(table: map<string, Name>, meshes: seq<Mesh>, mats: seq<Material>): map<string, Name>
    requires MaterialsExist(meshes, mats)
  {
    table + map f | f in FirstNames(meshes, mats) && f !in table :: 0
  }

  /** After a successful texture walk the lookups never miss: every mesh with a diffuse
      texture gets the non-zero name of its first file, and the table is left as it was. */
  lemma LookupsAfterSuccess(meshes: seq<Mesh>, mats: seq<Material>, base: Name, dir: string, decodable: set<string>)
    requires MaterialsExist(meshes, mats) && base >= 1
    requires AllDecode(DiffuseNames(mats), dir, decodable)
    ensures TableAfterLookups(AssignedTable(DiffuseNames(mats), base, dir, decodable), meshes, mats)
         == AssignedTable(DiffuseNames(mats), base, dir, decodable)
    ensures forall n :: 0 <= n < |meshes| ==>
      var mat := mats[meshes[n].materialIndex];
      MeshTexture(AssignedTable(DiffuseNames(mats), base, dir, decodable), mat)
        == if |mat.diffuse| == 0 then 0 else base + Rank(DiffuseNames(mats), mat.diffuse[0])
  {
    var keys := DiffuseNames(mats);
    forall n | 0 <= n < |meshes| && |mats[meshes[n].materialIndex].diffuse| > 0
      ensures mats[meshes[n].materialIndex].diffuse[0] in keys
    {
      var m := meshes[n].materialIndex;
      DiffuseNamesMembers(mats, mats[m].diffuse[0]);
      assert mats[m].diffuse[0] == mats[m].diffuse[0];
    }
    var table := AssignedTable(keys, base, dir, decodable);
    assert FirstNames(meshes, mats) <= table.Keys;
  }

  /** New buffer objects a mesh needs: one per present face list, positions and UVs. */
  function NewBuffers(mesh: Mesh): nat {
    (if |mesh.faces| > 0 then 1 else 0)
    + (if mesh.HasPositions() then 1 else 0)
    + (if mesh.HasTextureCoords0() then 1 else 0)
  }

  function BufferCount(meshes: seq<Mesh>): nat {
    if meshes == [] then 0 else BufferCount(meshes[..|meshes| - 1]) + NewBuffers(meshes[|meshes| - 1])
  }

  /** The buffers a record names hold the mesh's data, each generated in lo .. hi - 1: the
      flattened faces, the raw positions and the packed UVs, for each that the mesh has. */
  ghost predicate BuffersOf(rec: MeshInfo, mesh: Mesh, buffers: map<Name, BufferData>, lo: Name, hi: Name) {
    && (|mesh.faces| > 0 ==>
          lo <= rec.faceBuffer < hi && rec.faceBuffer in buffers
          && buffers[rec.faceBuffer] == Indices(FlatFaces(mesh.faces)))
    && (mesh.HasPositions() ==>
          lo <= rec.vertexBuffer < hi && rec.vertexBuffer in buffers
          && buffers[rec.vertexBuffer] == Positions(mesh.positions.value))
    && (mesh.HasTextureCoords0() ==>
          lo <= rec.textureCoordBuffer < hi && rec.textureCoordBuffer in buffers
          && buffers[rec.textureCoordBuffer] == Coords(PackUVs(mesh.uv0.value)))
  }

  /** The buffer fields a mesh does not write keep the previous record's value. */
  ghost predicate Inherits(rec: MeshInfo, prev: MeshInfo, mesh: Mesh) {
    && (|mesh.faces| == 0 ==> rec.faceBuffer == prev.faceBuffer)
    && (!mesh.HasPositions() ==> rec.vertexBuffer == prev.vertexBuffer)
    && (!mesh.HasTextureCoords0() ==> rec.textureCoordBuffer == prev.textureCoordBuffer)
  }

  /** rec is the record GenerateGLBuffers builds for mesh n, with texture lookups in table:
      generation starts at b0, and mesh n's new buffers are the names after those of the
      meshes before it. */
  ghost predicate RecordFor(rec: MeshInfo, meshes: seq<Mesh>, n: nat, mats: seq<Material>,
                            table: map<string, Name>, buffers: map<Name, BufferData>, b0: Name) {
    && n < |meshes| && meshes[n].materialIndex < |mats|
    && rec.numberOfFaces == |meshes[n].faces|
    && rec.textureIndex == MeshTexture(table, mats[meshes[n].materialIndex])
    && BuffersOf(rec, meshes[n], buffers, b0 + BufferCount(meshes[..n]), b0 + BufferCount(meshes[..n + 1]))
  }

  /** recs are the records GenerateGLBuffers builds for the first k meshes, in mesh order. The
      first record's unwritten buffer fields are whatever the uninitialised struct held. */
  ghost predicate RecordsUpTo(recs: seq<MeshInfo>, meshes: seq<Mesh>, k: nat, mats: seq<Material>,
                              table: map<string, Name>, buffers: map<Name, BufferData>, b0: Name) {
    && k <= |meshes| && |recs| == k
    && MaterialsExist(meshes, mats)
    && (forall n :: 0 <= n < k ==> RecordFor(recs[n], meshes, n, mats, table, buffers, b0))
    && (forall n :: 0 < n < k ==> Inherits(recs[n], recs[n - 1], meshes[n]))
  }

  /** recs are the records GenerateGLBuffers builds for all of meshes. */
  ghost predicate RecordsBuilt(recs: seq<MeshInfo>, meshes: seq<Mesh>, mats: seq<Material>,
                               table: map<string, Name>, buffers: map<Name, BufferData>, b0: Name) {
    RecordsUpTo(recs, meshes, |meshes|, mats, table, buffers, b0)
  }

  /** A longer prefix needs at least as many buffers. */
  lemma {:induction false} BufferCountMonotone(meshes: seq<Mesh>, i: nat, j: nat)
    requires i <= j <= |meshes|
    ensures BufferCount(meshes[..i]) <= BufferCount(meshes[..j])
    decreases j
  {
    if i < j {
      assert meshes[..j][..j - 1] == meshes[..j - 1];
      BufferCountMonotone(meshes, i, j - 1);
    }
  }

  /** Every mesh that has faces, positions or UVs gets buffers of its own, generated after
      those of each earlier mesh: glGenBuffers is called anew for every such mesh, so two
      records never share a buffer they wrote, even when their meshes hold the same data.
      The strict order comes from the model's name counter; GL itself promises only names not
      in use, and the distinctness is what the source relies on. */
  lemma LaterMeshesGetNewerBuffers(recs: seq<MeshInfo>, meshes: seq<Mesh>, mats: seq<Material>,
                                   table: map<string, Name>, buffers: map<Name, BufferData>, b0: Name,
                                   n: nat, m: nat)
    requires RecordsBuilt(recs, meshes, mats, table, buffers, b0)
    requires n < m < |meshes|
    ensures |meshes[n].faces| > 0 && |meshes[m].faces| > 0 ==> recs[n].faceBuffer < recs[m].faceBuffer
    ensures meshes[n].HasPositions() && meshes[m].HasPositions() ==> recs[n].vertexBuffer < recs[m].vertexBuffer
    ensures meshes[n].HasTextureCoords0() && meshes[m].HasTextureCoords0() ==>
      recs[n].textureCoordBuffer < recs[m].textureCoordBuffer
  {
    assert RecordFor(recs[n], meshes, n, mats, table, buffers, b0);
    assert RecordFor(recs[m], meshes, m, mats, table, buffers, b0);
    BufferCountMonotone(meshes, n + 1, m);
  }
}
