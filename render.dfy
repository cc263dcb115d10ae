/** The per-frame command sequence of Render3DModel, as a function of the mesh records, and
    what it promises: one indexed draw per record, in record order, of 3 indices per face,
    and a texture bind exactly for the records that carry a texture. */
module Render {
  import opened Gl
  import opened MeshBuffers

  /** Frame set-up before the mesh loop: clear, shader program, MVP uniform, texture unit 0
      and the sampler uniform. */
  const Preamble: seq<Command> := [Clear, UseProgram, SetMvp, ActivateTextureUnit0, SetSampler]

  /** The texture bind of one record: only when it has a texture. */
  function TextureCommand(rec: MeshInfo): seq<Command>
  {
    if rec.textureIndex != 0 then [BindTexture(rec.textureIndex)] else []
  }

  /** Buffer binds and attribute set-up of one record: the face buffer, then the vertex buffer
      as 3 floats per vertex, then the UV buffer as 2 floats per vertex. */
  function BufferSetup(rec: MeshInfo): seq<Command>
  {
    [ BindElementBuffer(rec.faceBuffer),
      BindArrayBuffer(rec.vertexBuffer), EnableAttribute(VertexPosition), AttributeLayout(VertexPosition, 3),
      BindArrayBuffer(rec.textureCoordBuffer), EnableAttribute(VertexUV), AttributeLayout(VertexUV, 2) ]
  }

  /** The unbinds after each draw. */
  const Unbinds: seq<Command> := [BindArrayBuffer(0), BindElementBuffer(0)]

  /** The commands issued for one record: optional texture bind, buffer set-up, the indexed
      draw of 3 indices per face, the unbinds. */
  function MeshCommands(rec: MeshInfo): seq<Command>
  {
    TextureCommand(rec) + BufferSetup(rec) + [DrawTriangles(rec.numberOfFaces * 3)] + Unbinds
  }

  /** The commands for records in list order. */
  function MeshesCommands(recs: seq<MeshInfo>): seq<Command>
  {
    if recs == [] then [] else MeshesCommands(recs[..|recs| - 1]) + MeshCommands(recs[|recs| - 1])
  }

  /** Everything Render3DModel issues in one frame: nothing at all unless a model is loaded. */
  function FrameCommands(loaded: bool, recs: seq<MeshInfo>): seq<Command>
  {
    if loaded then Preamble + MeshesCommands(recs) else []
  }

  /** The index counts of the draw calls in a command sequence, in order. */
  function Draws(cmds: seq<Command>): seq<nat>
  {
    if cmds == [] then []
    else (if cmds[0].DrawTriangles? then [cmds[0].count] else []) + Draws(cmds[1..])
  }

  /** The textures bound in a command sequence, in order. */
  function TextureBinds(cmds: seq<Command>): seq<Name>
  {
    if cmds == [] then []
    else (if cmds[0].BindTexture? then [cmds[0].texture] else []) + TextureBinds(cmds[1..])
  }

  /** The texture names of the records that have one, in record order. */
  function TexturedRecords(recs: seq<MeshInfo>): (r: seq<Name>)
    ensures forall t :: t in r ==> t != 0
  {
    if recs == [] then []
    else
      var last := recs[|recs| - 1];
      TexturedRecords(recs[..|recs| - 1]) + (if last.textureIndex != 0 then [last.textureIndex] else [])
  }

  lemma {:induction false} NoDraws(cmds: seq<Command>)
    requires forall i :: 0 <= i < |cmds| ==> !cmds[i].DrawTriangles?
    ensures Draws(cmds) == []
  {
    if cmds != [] {
      NoDraws(cmds[1..]);
    }
  }

  lemma {:induction false} NoTextureBinds(cmds: seq<Command>)
    requires forall i :: 0 <= i < |cmds| ==> !cmds[i].BindTexture?
    ensures TextureBinds(cmds) == []
  {
    if cmds != [] {
      NoTextureBinds(cmds[1..]);
    }
  }

  lemma {:induction false} DrawsAppend(a: seq<Command>, b: seq<Command>)
    ensures Draws(a + b) == Draws(a) + Draws(b)
  {
    if a == [] {
      assert a + b == b;
    } else {
      assert (a + b)[0] == a[0] && (a + b)[1..] == a[1..] + b;
      DrawsAppend(a[1..], b);
    }
  }

  lemma {:induction false} TextureBindsAppend(a: seq<Command>, b: seq<Command>)
    ensures TextureBinds(a + b) == TextureBinds(a) + TextureBinds(b)
  {
    if a == [] {
      assert a + b == b;
    } else {
      assert (a + b)[0] == a[0] && (a + b)[1..] == a[1..] + b;
      TextureBindsAppend(a[1..], b);
    }
  }

  /** One frame of a loaded model draws every record once, in list order, with
      numberOfFaces * 3 indices; a record without faces still gets its (empty) draw. */
  lemma {:induction false} FrameDrawsEveryRecord(recs: seq<MeshInfo>)
    ensures Draws(FrameCommands(true, recs)) == seq(|recs|, i requires 0 <= i < |recs| => recs[i].numberOfFaces * 3)
  {
    DrawsAppend(Preamble, MeshesCommands(recs));
    NoDraws(Preamble);
    MeshesDraws(recs);
  }

  lemma {:induction false} MeshesDraws(recs: seq<MeshInfo>)
    ensures Draws(MeshesCommands(recs)) == seq(|recs|, i requires 0 <= i < |recs| => recs[i].numberOfFaces * 3)
  {
    if recs != [] {
      var last := |recs| - 1;
      var before := seq(last, i requires 0 <= i < last => recs[i].numberOfFaces * 3);
      MeshesDraws(recs[..last]);
      assert Draws(MeshesCommands(recs[..last])) == before;
      DrawsAppend(MeshesCommands(recs[..last]), MeshCommands(recs[last]));
      MeshDraws(recs[last]);
      assert before + [recs[last].numberOfFaces * 3]
          == seq(|recs|, i requires 0 <= i < |recs| => recs[i].numberOfFaces * 3);
    }
  }

  /** One record issues exactly one draw, of numberOfFaces * 3 indices. */
  lemma MeshDraws(rec: MeshInfo)
    ensures Draws(MeshCommands(rec)) == [rec.numberOfFaces * 3]
  {
    var draw := [DrawTriangles(rec.numberOfFaces * 3)];
    DrawsAppend(TextureCommand(rec) + BufferSetup(rec) + draw, Unbinds);
    DrawsAppend(TextureCommand(rec) + BufferSetup(rec), draw);
    DrawsAppend(TextureCommand(rec), BufferSetup(rec));
    NoDraws(TextureCommand(rec));
    NoDraws(BufferSetup(rec));
    NoDraws(Unbinds);
    assert Draws(draw) == [rec.numberOfFaces * 3] + Draws([]);
  }

  /** One frame binds exactly the textures of the textured records, in record order; an
      untextured record binds none and leaves the previous binding active. */
  lemma {:induction false} FrameBindsRecordTextures(recs: seq<MeshInfo>)
    ensures TextureBinds(FrameCommands(true, recs)) == TexturedRecords(recs)
  {
    TextureBindsAppend(Preamble, MeshesCommands(recs));
    NoTextureBinds(Preamble);
    MeshesTextureBinds(recs);
  }

  lemma {:induction false} MeshesTextureBinds(recs: seq<MeshInfo>)
    ensures TextureBinds(MeshesCommands(recs)) == TexturedRecords(recs)
  {
    if recs != [] {
      var last := |recs| - 1;
      MeshesTextureBinds(recs[..last]);
      TextureBindsAppend(MeshesCommands(recs[..last]), MeshCommands(recs[last]));
      MeshTextureBinds(recs[last]);
    }
  }

  /** One record binds its texture when it has one, and nothing else. */
  lemma MeshTextureBinds(rec: MeshInfo)
    ensures TextureBinds(MeshCommands(rec)) == if rec.textureIndex != 0 then [rec.textureIndex] else []
  {
    var draw := [DrawTriangles(rec.numberOfFaces * 3)];
    TextureBindsAppend(TextureCommand(rec) + BufferSetup(rec) + draw, Unbinds);
    TextureBindsAppend(TextureCommand(rec) + BufferSetup(rec), draw);
    TextureBindsAppend(TextureCommand(rec), BufferSetup(rec));
    NoTextureBinds(BufferSetup(rec));
    NoTextureBinds(draw);
    NoTextureBinds(Unbinds);
    if rec.textureIndex != 0 {
      assert TextureBinds(TextureCommand(rec)) == [rec.textureIndex] + TextureBinds([]);
    }
  }
}
