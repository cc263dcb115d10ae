/** An abstract model of the parts of the OpenGL ES state machine the model loader touches:
    name generation for buffer and texture objects, the data stored in them, and the
    commands the frame renderer issues. Name 0 is never generated: GL reserves it. */
module Gl {

  /** A GL object name (GLuint); 0 means "no object". */
  type Name = nat

  /** A float component. The loader never computes on vertex or UV values; it only moves
      them between layouts, so any value type will do. */
  type Coord = real

  datatype Vec3 = Vec3(x: Coord, y: Coord, z: Coord)

  /** What a buffer object holds after glBufferData. */
  datatype BufferData =
    | Indices(indices: seq<nat>)      // GL_ELEMENT_ARRAY_BUFFER of unsigned ints
    | Positions(vertices: seq<Vec3>)  // GL_ARRAY_BUFFER of 3 floats per vertex
    | Coords(coords: seq<Coord>)      // GL_ARRAY_BUFFER of packed floats

  /** What a texture object holds after glTexImage2D: the image decoded from the given path,
      with linear minification and magnification filtering. */
  datatype TextureImage = Image(path: string)

  /** The vertex attributes of the textured shader. */
  datatype Attribute = VertexPosition | VertexUV

  /** One GL call of the frame renderer. */
  datatype Command =
    | Clear                                     // glClear(COLOR | DEPTH)
    | UseProgram                                // glUseProgram(shaderProgramID)
    | SetMvp                                    // glUniformMatrix4fv(mvpLocation, ...)
    | ActivateTextureUnit0                      // glActiveTexture(GL_TEXTURE0)
    | SetSampler                                // glUniform1i(textureSamplerLocation, 0)
    | BindTexture(texture: Name)                // glBindTexture(GL_TEXTURE_2D, texture)
    | BindElementBuffer(buffer: Name)           // glBindBuffer(GL_ELEMENT_ARRAY_BUFFER, buffer)
    | BindArrayBuffer(buffer: Name)             // glBindBuffer(GL_ARRAY_BUFFER, buffer)
    | EnableAttribute(attribute: Attribute)     // glEnableVertexAttribArray
    | AttributeLayout(attribute: Attribute, components: nat) // glVertexAttribPointer, GL_FLOAT, tightly packed
    | DrawTriangles(count: nat)                 // glDrawElements(GL_TRIANGLES, count, GL_UNSIGNED_INT, 0)

  /** The GPU: a name allocator per object kind and the contents of the objects. Generated
      names are handed out in increasing order from 1, so a fresh name is never live. */
  class Gpu {
    var nextBuffer: Name
    var nextTexture: Name
    var buffers: map<Name, BufferData>
    var textures: map<Name, TextureImage>

    ghost predicate Valid()
      reads this
    {
      && 1 <= nextBuffer
      && 1 <= nextTexture
      && (forall b :: b in buffers ==> 0 < b < nextBuffer)
      && (forall t :: t in textures ==> 0 < t < nextTexture)
    }

    constructor ()
      ensures Valid()
      ensures nextBuffer == 1 && nextTexture == 1 && buffers == map[] && textures == map[]
    {
      nextBuffer := 1;
      nextTexture := 1;
      buffers := map[];
      textures := map[];
    }

    /** glGenBuffers(1, &name) */
    method GenBuffer() returns (name: Name)
      requires Valid()
      modifies this
      ensures Valid()
      ensures name == old(nextBuffer) && name != 0 && name !in buffers
      ensures nextBuffer == old(nextBuffer) + 1
      ensures buffers == old(buffers) && nextTexture == old(nextTexture) && textures == old(textures)
    {
      name := nextBuffer;
      nextBuffer := nextBuffer + 1;
    }

    /** glBindBuffer(target, name) followed by glBufferData(target, ..., data, GL_STATIC_DRAW) */
    method BufferStore(name: Name, data: BufferData)
      requires Valid() && 0 < name < nextBuffer
      modifies this
      ensures Valid()
      ensures buffers == old(buffers)[name := data]
      ensures nextBuffer == old(nextBuffer) && nextTexture == old(nextTexture) && textures == old(textures)
    {
      buffers := buffers[name := data];
    }

    /** glGenTextures(n, names): n consecutive fresh names */
    method GenTextures(n: nat) returns (names: seq<Name>)
      requires Valid()
      modifies this
      ensures Valid()
      ensures |names| == n
      ensures forall i :: 0 <= i < n ==> names[i] == old(nextTexture) + i
      ensures nextTexture == old(nextTexture) + n
      ensures textures == old(textures) && nextBuffer == old(nextBuffer) && buffers == old(buffers)
    {
      var first := nextTexture;
      names := seq(n, i => first + i);
      nextTexture := nextTexture + n;
    }

    /** glBindTexture(GL_TEXTURE_2D, name), two glTexParameteri for linear filtering and
        glTexImage2D with the pixels decoded from path. */
    method TexImage(name: Name, path: string)
      requires Valid() && 0 < name < nextTexture
      modifies this
      ensures Valid()
      ensures textures == old(textures)[name := Image(path)]
      ensures nextTexture == old(nextTexture) && nextBuffer == old(nextBuffer) && buffers == old(buffers)
    {
      textures := textures[name := Image(path)];
    }
  }

  /** The buffer store grew by exactly the names from .. to - 1 and kept every earlier buffer. */
  ghost predicate BuffersGrown(before: map<Name, BufferData>, after: map<Name, BufferData>, from: Name, to: Name) {
    && (forall b :: b in after <==> b in before || from <= b < to)
    && (forall b :: b in before ==> after[b] == before[b])
  }

  lemma BuffersGrownTrans(a: map<Name, BufferData>, b: map<Name, BufferData>, c: map<Name, BufferData>,
                          x: Name, y: Name, z: Name)
    requires BuffersGrown(a, b, x, y) && BuffersGrown(b, c, y, z) && x <= y <= z
    ensures BuffersGrown(a, c, x, z)
  {
  }
}
