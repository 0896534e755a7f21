/**
 * Vertex and triangle-index generation of `Mesh` (src/mesh.cpp). The
 * vectors `_vertices` and `_triangleIndices` are sequence fields that the
 * methods reassign; GPU buffer uploads are not modelled. Trigonometry and
 * `glm::normalize` are parameters, so the model is about which vertices and
 * which index triples are produced, in which order, and why every index
 * stays inside the vertex buffer that `glDrawElements` reads.
 */
module Meshes {
  import opened Geometry

  /** One entry of `_vertices`: position, normal and RGBA colour. */
  datatype Vertex = Vertex(position: Vec3, normal: Vec3, color: Vec4)

  /** A `glm::uvec3` of vertex indices: one triangle. */
  datatype Triangle = Triangle(a: int, b: int, c: int)

  /** The triangle's three corners are distinct vertices. */
  predicate NonDegenerate(t: Triangle)
  {
    t.a != t.b && t.b != t.c && t.a != t.c
  }

  /** Some triangle has vertex v as a corner. */
  predicate Uses(ts: seq<Triangle>, v: int)
  {
    exists n :: 0 <= n < |ts| && (ts[n].a == v || ts[n].b == v || ts[n].c == v)
  }

  /** Every corner of every triangle names one of the first `count` vertices. */
  predicate IndicesBelow(ts: seq<Triangle>, count: int)
  {
    forall n :: 0 <= n < |ts| ==>
      0 <= ts[n].a < count && 0 <= ts[n].b < count && 0 <= ts[n].c < count
  }

  // ---------------------------------------------------------------------
  // Sphere

  /**
   * The arguments of `makeSphere` that fix each vertex: the colour, the
   * radius, the unit direction of stack i and sector j (which the source
   * computes with cos and sin) and `glm::normalize`.
   */
  datatype SphereShape = SphereShape(color: Vec4, radius: real, direction: (int, int) -> Vec3, normalize: Vec3 -> Vec3)

  /** The vertex of stack i and sector j: `radius` times the unit direction there. */
  function SphereVertex(shape: SphereShape, i: int, j: int): Vertex
  {
    var position := Scale(shape.direction(i, j), shape.radius);
    Vertex(position, shape.normalize(position), shape.color)
  }

  /** Sectors 0 .. count-1 of stack i, in the order the inner loop emits them. */
  function RingVertices(shape: SphereShape, i: int, count: int): (r: seq<Vertex>)
    ensures |r| == if count <= 0 then 0 else count
    decreases count
  {
    if count <= 0 then []
    else RingVertices(shape, i, count - 1)
         + [SphereVertex(shape, i, count - 1)]
  }

  /** Stacks 0 .. rows-1, each with sectors 0 .. sectorCount. */
  function SphereVertexRows(shape: SphereShape, sectorCount: int, rows: int): seq<Vertex>
    decreases rows
  {
    if rows <= 0 then []
    else SphereVertexRows(shape, sectorCount, rows - 1)
         + RingVertices(shape, rows - 1, sectorCount + 1)
  }

  /** One more stack appends its ring. */
  lemma SphereVertexRowsStep(shape: SphereShape, sectorCount: int, rows: int)
    requires rows >= 0
    ensures SphereVertexRows(shape, sectorCount, rows + 1)
         == SphereVertexRows(shape, sectorCount, rows)
            + RingVertices(shape, rows, sectorCount + 1)
  {
  }

  /** The vertices `makeSphere` appends: stacks 0 .. stackCount. */
  function SphereVertices(shape: SphereShape, sectorCount: int, stackCount: int): seq<Vertex>
  {
    SphereVertexRows(shape, sectorCount, stackCount + 1)
  }

  /** Sector j of a ring sits at position j. */
  lemma {:induction false} RingVertexAt(shape: SphereShape, i: int, count: int, j: int)
    requires 0 <= j < count
    ensures RingVertices(shape, i, count)[j]
         == SphereVertex(shape, i, j)
    decreases count
  {
    if j < count - 1 {
      RingVertexAt(shape, i, count - 1, j);
    }
  }

  /** Stacks 0 .. rows-1 hold rows * (sectorCount + 1) vertices. */
  lemma {:induction false} SphereVertexRowsLength(shape: SphereShape, sectorCount: int, rows: int)
    requires sectorCount >= 0 && rows >= 0
    ensures |SphereVertexRows(shape, sectorCount, rows)| == rows * (sectorCount + 1)
    decreases rows
  {
    if rows > 0 {
      SphereVertexRowsLength(shape, sectorCount, rows - 1);
      assert rows * (sectorCount + 1) == (rows - 1) * (sectorCount + 1) + (sectorCount + 1);
    }
  }

  /** The vertex of stack i, sector j sits at i * (sectorCount + 1) + j. */
  lemma {:induction false} SphereVertexRowsAt(shape: SphereShape, sectorCount: int, rows: int, i: int, j: int)
    requires sectorCount >= 0 && 0 <= i < rows && 0 <= j <= sectorCount
    ensures 0 <= i * (sectorCount + 1) + j < |SphereVertexRows(shape, sectorCount, rows)|
    ensures SphereVertexRows(shape, sectorCount, rows)[i * (sectorCount + 1) + j]
         == SphereVertex(shape, i, j)
    decreases rows
  {
    var before := SphereVertexRows(shape, sectorCount, rows - 1);
    SphereVertexRowsLength(shape, sectorCount, rows - 1);
    SphereVertexRowsLength(shape, sectorCount, rows);
    if i < rows - 1 {
      SphereVertexRowsAt(shape, sectorCount, rows - 1, i, j);
    } else {
      assert |before| == i * (sectorCount + 1);
      RingVertexAt(shape, i, sectorCount + 1, j);
    }
  }

  /**
   * `makeSphere` emits (stackCount + 1) * (sectorCount + 1) vertices, the one
   * of stack i and sector j at position i * (sectorCount + 1) + j.
   */
  lemma SphereVerticesLayout(shape: SphereShape, sectorCount: int, stackCount: int)
    requires sectorCount >= 0 && stackCount >= 0
    ensures |SphereVertices(shape, sectorCount, stackCount)|
         == (stackCount + 1) * (sectorCount + 1)
    ensures forall i, j :: 0 <= i <= stackCount && 0 <= j <= sectorCount ==>
      SphereVertices(shape, sectorCount, stackCount)[i * (sectorCount + 1) + j]
      == SphereVertex(shape, i, j)
  {
    SphereVertexRowsLength(shape, sectorCount, stackCount + 1);
    forall i, j | 0 <= i <= stackCount && 0 <= j <= sectorCount
      ensures SphereVertices(shape, sectorCount, stackCount)[i * (sectorCount + 1) + j]
           == SphereVertex(shape, i, j)
    {
      SphereVertexRowsAt(shape, sectorCount, stackCount + 1, i, j);
    }
  }

  /** A negative count on either axis makes a loop run zero times: nothing is emitted. */
  lemma SphereVerticesEmpty(shape: SphereShape, sectorCount: int, stackCount: int)
    requires sectorCount < 0 || stackCount < 0
    ensures SphereVertices(shape, sectorCount, stackCount) == []
  {
    if stackCount < 0 {
      assert stackCount + 1 <= 0;
    } else {
      EmptyRows(shape, sectorCount, stackCount + 1);
    }
  }

  lemma {:induction false} EmptyRows(shape: SphereShape, sectorCount: int, rows: int)
    requires sectorCount < 0
    ensures SphereVertexRows(shape, sectorCount, rows) == []
    decreases rows
  {
    if rows > 0 {
      EmptyRows(shape, sectorCount, rows - 1);
      assert RingVertices(shape, rows - 1, sectorCount + 1) == [];
    }
  }

  /**
   * The triangles of cell (i, j): with k1 the cell's corner on stack i and k2
   * the one below it, the upper triangle (k1, k2, k1+1) except on the first
   * stack and the lower triangle (k1+1, k2, k2+1) except on the last.
   */
  function CellTriangles(sectorCount: int, stackCount: int, i: int, j: int): (r: seq<Triangle>)
    ensures |r| == (if i != 0 then 1 else 0) + (if i != stackCount - 1 then 1 else 0)
  {
    var k1 := i * (sectorCount + 1) + j;
    var k2 := k1 + sectorCount + 1;
    (if i != 0 then [Triangle(k1, k2, k1 + 1)] else [])
    + (if i != stackCount - 1 then [Triangle(k1 + 1, k2, k2 + 1)] else [])
  }

  /** Cells 0 .. cells-1 of stack i, in the order the inner loop emits them. */
  function StackTriangles(sectorCount: int, stackCount: int, i: int, cells: int): seq<Triangle>
    decreases cells
  {
    if cells <= 0 then []
    else StackTriangles(sectorCount, stackCount, i, cells - 1) + CellTriangles(sectorCount, stackCount, i, cells - 1)
  }

  /** Stacks 0 .. rows-1, each with cells 0 .. sectorCount-1. */
  function SphereTriangleRows(sectorCount: int, stackCount: int, rows: int): seq<Triangle>
    decreases rows
  {
    if rows <= 0 then []
    else SphereTriangleRows(sectorCount, stackCount, rows - 1) + StackTriangles(sectorCount, stackCount, rows - 1, sectorCount)
  }

  /** The triangles `makeSphere` appends. */
  function SphereTriangles(sectorCount: int, stackCount: int): seq<Triangle>
  {
    SphereTriangleRows(sectorCount, stackCount, stackCount)
  }

  /**
   * A stack emits one triangle per cell when it is either the first or the
   * last, two when it is neither, and none when it is both.
   */
  lemma {:induction false} StackTrianglesLength(sectorCount: int, stackCount: int, i: int, cells: int)
    requires cells >= 0
    ensures i == 0 && i == stackCount - 1 ==> |StackTriangles(sectorCount, stackCount, i, cells)| == 0
    ensures (i == 0) != (i == stackCount - 1) ==> |StackTriangles(sectorCount, stackCount, i, cells)| == cells
    ensures i != 0 && i != stackCount - 1 ==> |StackTriangles(sectorCount, stackCount, i, cells)| == 2 * cells
    decreases cells
  {
    if cells > 0 {
      StackTrianglesLength(sectorCount, stackCount, i, cells - 1);
    }
  }

  /** Multiplication distributes over a sum with 1. */
  lemma DistributeOne(a: int, b: int)
    ensures a * b + a == a * (b + 1)
  {
  }

  /** Multiplication distributes over a sum with 2. */
  lemma DistributeTwo(a: int, b: int)
    ensures a * b + 2 * a == a * (b + 2)
    ensures 2 * a * b == a * (2 * b)
  {
  }

  /** Before the last stack, stacks 0 .. rows-1 emit 2*rows - 1 triangles per sector. */
  lemma {:induction false} SphereTriangleRowsLength(sectorCount: int, stackCount: int, rows: int)
    requires sectorCount >= 0 && 0 < rows < stackCount
    ensures |SphereTriangleRows(sectorCount, stackCount, rows)| == sectorCount * (2 * rows - 1)
    decreases rows
  {
    var last := StackTriangles(sectorCount, stackCount, rows - 1, sectorCount);
    StackTrianglesLength(sectorCount, stackCount, rows - 1, sectorCount);
    assert SphereTriangleRows(sectorCount, stackCount, rows) == SphereTriangleRows(sectorCount, stackCount, rows - 1) + last;
    if rows == 1 {
      assert SphereTriangleRows(sectorCount, stackCount, 0) == [];
    } else {
      SphereTriangleRowsLength(sectorCount, stackCount, rows - 1);
      DistributeTwo(sectorCount, 2 * rows - 3);
    }
  }

  /**
   * `makeSphere` emits 2 * sectorCount * (stackCount - 1) triangles: two per
   * cell, less one for each cell of the first stack and one for each cell of
   * the last.
   */
  lemma SphereTriangleCount(sectorCount: int, stackCount: int)
    requires sectorCount >= 0 && stackCount >= 1
    ensures |SphereTriangles(sectorCount, stackCount)| == 2 * sectorCount * (stackCount - 1)
  {
    var rows := stackCount - 1;
    var last := StackTriangles(sectorCount, stackCount, rows, sectorCount);
    StackTrianglesLength(sectorCount, stackCount, rows, sectorCount);
    assert SphereTriangles(sectorCount, stackCount) == SphereTriangleRows(sectorCount, stackCount, rows) + last;
    if rows == 0 {
      assert SphereTriangleRows(sectorCount, stackCount, 0) == [];
      assert 2 * sectorCount * (stackCount - 1) == 2 * sectorCount * 0 == 0;
    } else {
      SphereTriangleRowsLength(sectorCount, stackCount, rows);
      DistributeOne(sectorCount, 2 * rows - 1);
      DistributeTwo(sectorCount, rows);
    }
  }

  /** The corners k1, k1+1, k2, k2+1 of cell (i, j) lie below (i + 2) * (sectorCount + 1). */
  lemma CellCornersBelow(sectorCount: int, i: int, j: int)
    requires 0 <= i && 0 <= j < sectorCount
    ensures 0 <= i * (sectorCount + 1) + j
    ensures i * (sectorCount + 1) + j + sectorCount + 2 < (i + 2) * (sectorCount + 1)
  {
    assert (i + 2) * (sectorCount + 1) == i * (sectorCount + 1) + 2 * sectorCount + 2;
  }

  /** A product grows with its left factor. */
  lemma MulMonotone(a: int, b: int, m: int)
    requires 0 <= a <= b && m >= 0
    ensures a * m <= b * m
  {
    assert b * m == a * m + (b - a) * m;
  }

  /** Each cell's triangles index vertices of stacks i .. i+1 and have distinct corners. */
  lemma CellTrianglesFit(sectorCount: int, stackCount: int, i: int, j: int)
    requires 0 <= i < stackCount && 0 <= j < sectorCount
    ensures IndicesBelow(CellTriangles(sectorCount, stackCount, i, j), (stackCount + 1) * (sectorCount + 1))
    ensures forall n :: 0 <= n < |CellTriangles(sectorCount, stackCount, i, j)| ==>
      NonDegenerate(CellTriangles(sectorCount, stackCount, i, j)[n])
  {
    CellCornersBelow(sectorCount, i, j);
    MulMonotone(i + 2, stackCount + 1, sectorCount + 1);
  }

  lemma {:induction false} StackTrianglesFit(sectorCount: int, stackCount: int, i: int, cells: int)
    requires 0 <= i < stackCount && cells <= sectorCount
    ensures IndicesBelow(StackTriangles(sectorCount, stackCount, i, cells), (stackCount + 1) * (sectorCount + 1))
    ensures forall n :: 0 <= n < |StackTriangles(sectorCount, stackCount, i, cells)| ==>
      NonDegenerate(StackTriangles(sectorCount, stackCount, i, cells)[n])
    decreases cells
  {
    if cells > 0 {
      StackTrianglesFit(sectorCount, stackCount, i, cells - 1);
      CellTrianglesFit(sectorCount, stackCount, i, cells - 1);
      AppendFits(StackTriangles(sectorCount, stackCount, i, cells - 1),
                 CellTriangles(sectorCount, stackCount, i, cells - 1), (stackCount + 1) * (sectorCount + 1));
    }
  }

  lemma {:induction false} SphereTriangleRowsFit(sectorCount: int, stackCount: int, rows: int)
    requires rows <= stackCount
    ensures IndicesBelow(SphereTriangleRows(sectorCount, stackCount, rows), (stackCount + 1) * (sectorCount + 1))
    ensures forall n :: 0 <= n < |SphereTriangleRows(sectorCount, stackCount, rows)| ==>
      NonDegenerate(SphereTriangleRows(sectorCount, stackCount, rows)[n])
    decreases rows
  {
    if rows > 0 {
      SphereTriangleRowsFit(sectorCount, stackCount, rows - 1);
      StackTrianglesFit(sectorCount, stackCount, rows - 1, sectorCount);
      AppendFits(SphereTriangleRows(sectorCount, stackCount, rows - 1),
                 StackTriangles(sectorCount, stackCount, rows - 1, sectorCount), (stackCount + 1) * (sectorCount + 1));
    }
  }

  /** Both properties survive concatenation. */
  lemma AppendFits(s: seq<Triangle>, t: seq<Triangle>, count: int)
    requires IndicesBelow(s, count) && IndicesBelow(t, count)
    requires forall n :: 0 <= n < |s| ==> NonDegenerate(s[n])
    requires forall n :: 0 <= n < |t| ==> NonDegenerate(t[n])
    ensures IndicesBelow(s + t, count)
    ensures forall n :: 0 <= n < |s + t| ==> NonDegenerate((s + t)[n])
  {
    forall n | 0 <= n < |s + t|
      ensures NonDegenerate((s + t)[n])
      ensures 0 <= (s + t)[n].a < count && 0 <= (s + t)[n].b < count && 0 <= (s + t)[n].c < count
    {
      if n >= |s| {
        assert (s + t)[n] == t[n - |s|];
      }
    }
  }

  /**
   * Every sphere triangle has three distinct corners, and every corner is
   * below the number of sphere vertices, so a mesh that starts empty never
   * draws past its vertex buffer.
   */
  lemma SphereTrianglesFit(sectorCount: int, stackCount: int)
    ensures IndicesBelow(SphereTriangles(sectorCount, stackCount), (stackCount + 1) * (sectorCount + 1))
    ensures forall n :: 0 <= n < |SphereTriangles(sectorCount, stackCount)| ==>
      NonDegenerate(SphereTriangles(sectorCount, stackCount)[n])
  {
    SphereTriangleRowsFit(sectorCount, stackCount, stackCount);
  }

  // ---------------------------------------------------------------------
  // Cube

  /** The eight corner positions of `makeCube`, front face (z = +size/2) first, counter-clockwise from bottom left. */
  function CubePositions(position: Vec3, size: real): (r: seq<Vec3>)
    ensures |r| == 8
  {
    var h := size / 2.0;
    [Add(Vec3(-h, -h, h), position), Add(Vec3(h, -h, h), position),
     Add(Vec3(h, h, h), position), Add(Vec3(-h, h, h), position),
     Add(Vec3(-h, -h, -h), position), Add(Vec3(h, -h, -h), position),
     Add(Vec3(h, h, -h), position), Add(Vec3(-h, h, -h), position)]
  }

  /** The per-vertex normals: +z for the front four corners, -z for the back four. */
  function CubeNormals(): (r: seq<Vec3>)
    ensures |r| == 8
  {
    var front, back := Vec3(0.0, 0.0, 1.0), Vec3(0.0, 0.0, -1.0);
    [front, front, front, front, back, back, back, back]
  }

  /** The twelve triangles of `makeCube`, two per face. */
  function CubeTriangles(): (r: seq<Triangle>)
    ensures |r| == 12
  {
    [Triangle(0, 1, 2), Triangle(2, 3, 0),
     Triangle(1, 5, 6), Triangle(6, 2, 1),
     Triangle(7, 6, 5), Triangle(5, 4, 7),
     Triangle(4, 0, 3), Triangle(3, 7, 4),
     Triangle(4, 5, 1), Triangle(1, 0, 4),
     Triangle(3, 2, 6), Triangle(6, 7, 3)]
  }

  /** The cube's triangles index its eight vertices, each with three distinct corners. */
  lemma CubeTrianglesFit()
    ensures IndicesBelow(CubeTriangles(), 8)
    ensures forall n :: 0 <= n < |CubeTriangles()| ==> NonDegenerate(CubeTriangles()[n])
    ensures forall v :: 0 <= v < 8 ==> Uses(CubeTriangles(), v)
  {
    assert CubeTriangles()[0].a == 0 && CubeTriangles()[2].a == 1 && CubeTriangles()[1].a == 2;
    assert CubeTriangles()[7].a == 3 && CubeTriangles()[6].a == 4 && CubeTriangles()[5].a == 5;
    assert CubeTriangles()[3].a == 6 && CubeTriangles()[4].a == 7;
  }

  /** The cube's corners are `size` apart along each axis around `position`. */
  lemma CubeCornersOpposite(position: Vec3, size: real)
    ensures Sub(CubePositions(position, size)[1], CubePositions(position, size)[0]) == Vec3(size, 0.0, 0.0)
    ensures Sub(CubePositions(position, size)[3], CubePositions(position, size)[0]) == Vec3(0.0, size, 0.0)
    ensures Sub(CubePositions(position, size)[0], CubePositions(position, size)[4]) == Vec3(0.0, 0.0, size)
    ensures Sub(CubePositions(position, size)[6], CubePositions(position, size)[0]) == Vec3(size, size, -size)
  {
  }

  // ---------------------------------------------------------------------
  // Plane

  /** The four corners a, b, c, d of `makePlane`: size*(+-u +-v), around the quad in order. */
  function PlaneCorners(u: Vec3, v: Vec3, size: real): (r: seq<Vec3>)
    ensures |r| == 4
  {
    var su, sv := Scale(u, size), Scale(v, size);
    [Add(su, sv), Sub(su, sv), Sub(Neg(su), sv), Add(Neg(su), sv)]
  }

  /** The plane's common normal before normalisation: (b - a) x (d - a). */
  function PlaneNormalDirection(u: Vec3, v: Vec3, size: real): Vec3
  {
    var c := PlaneCorners(u, v, size);
    Cross(Sub(c[1], c[0]), Sub(c[3], c[0]))
  }

  /** The two triangles of `makePlane`, sharing the diagonal from corner 0 to corner 2. */
  function PlaneTriangles(): (r: seq<Triangle>)
    ensures |r| == 2
  {
    [Triangle(0, 1, 2), Triangle(2, 3, 0)]
  }

  /** The quad is centred on the origin: opposite corners are negatives of each other. */
  lemma PlaneCentred(u: Vec3, v: Vec3, size: real)
    ensures PlaneCorners(u, v, size)[2] == Neg(PlaneCorners(u, v, size)[0])
    ensures PlaneCorners(u, v, size)[3] == Neg(PlaneCorners(u, v, size)[1])
  {
  }

  /** Both plane triangles index its four vertices, have distinct corners and together use all four. */
  lemma PlaneTrianglesFit()
    ensures IndicesBelow(PlaneTriangles(), 4)
    ensures forall n :: 0 <= n < |PlaneTriangles()| ==> NonDegenerate(PlaneTriangles()[n])
    ensures forall v :: 0 <= v < 4 ==> Uses(PlaneTriangles(), v)
  {
    assert PlaneTriangles()[0].a == 0 && PlaneTriangles()[0].b == 1 && PlaneTriangles()[0].c == 2;
    assert PlaneTriangles()[1].b == 3;
  }

  // ---------------------------------------------------------------------
  // The mesh

  class Mesh {
    var vertices: seq<Vertex>
    var triangleIndices: seq<Triangle>
    var vertexPositions: seq<Vec3>
    var vertexColors: seq<Vec4>
    var vertexNormals: seq<Vec3>

    /** Every triangle indexes a vertex that exists: what keeps a draw call in range. */
    predicate Drawable()
      reads this
    {
      IndicesBelow(triangleIndices, |vertices|)
    }

    /** `Mesh(vertices, triangleIndices, shader)`: the mesh takes the given vectors. */
    constructor (vertices: seq<Vertex>, triangleIndices: seq<Triangle>)
      ensures this.vertices == vertices && this.triangleIndices == triangleIndices
      ensures vertexPositions == [] && vertexColors == [] && vertexNormals == []
    {
      this.vertices := vertices;
      this.triangleIndices := triangleIndices;
      vertexPositions, vertexColors, vertexNormals := [], [], [];
    }

    /** `Mesh(meshType, shader)`: an empty mesh that a `make...` call fills. */
    constructor Empty()
      ensures vertices == [] && triangleIndices == []
      ensures vertexPositions == [] && vertexColors == [] && vertexNormals == []
    {
      vertices, triangleIndices := [], [];
      vertexPositions, vertexColors, vertexNormals := [], [], [];
    }

    /**
     * `makeSphere`: appends stacks 0 .. stackCount of sectors 0 .. sectorCount,
     * then the triangles of every cell between consecutive stacks.
     * `direction(i, j)` is the unit vector the source computes with cos and sin.
     */
    method MakeSphere(color: Vec4, radius: real, sectorCount: int, stackCount: int,
                      direction: (int, int) -> Vec3, normalize: Vec3 -> Vec3)
      modifies this`vertices, this`triangleIndices
      ensures vertices == old(vertices) + SphereVertices(SphereShape(color, radius, direction, normalize), sectorCount, stackCount)
      ensures triangleIndices == old(triangleIndices) + SphereTriangles(sectorCount, stackCount)
    {
      AppendSphereVertices(SphereShape(color, radius, direction, normalize), sectorCount, stackCount);
      AppendSphereTriangles(sectorCount, stackCount);
    }

    /** The vertex loops of `makeSphere`, one stack at a time. */
    method AppendSphereVertices(shape: SphereShape, sectorCount: int, stackCount: int)
      modifies this`vertices
      ensures vertices == old(vertices) + SphereVertices(shape, sectorCount, stackCount)
    {
      var i := 0;
      while i <= stackCount
        invariant 0 <= i
        invariant stackCount >= 0 ==> i <= stackCount + 1
        invariant stackCount < 0 ==> i == 0
        invariant vertices == old(vertices) + SphereVertexRows(shape, sectorCount, i)
      {
        AppendRing(shape, sectorCount, i);
        SphereVertexRowsStep(shape, sectorCount, i);
        i := i + 1;
      }
    }

    /** The inner vertex loop of `makeSphere`: sectors 0 .. sectorCount of stack i. */
    method AppendRing(shape: SphereShape, sectorCount: int, i: int)
      modifies this`vertices
      ensures vertices == old(vertices) + RingVertices(shape, i, sectorCount + 1)
    {
      var j := 0;
      while j <= sectorCount
        invariant 0 <= j && (j <= sectorCount + 1 || j == 0)
        invariant vertices == old(vertices) + RingVertices(shape, i, j)
      {
        var position := Scale(shape.direction(i, j), shape.radius);
        vertices := vertices + [Vertex(position, shape.normalize(position), shape.color)];
        j := j + 1;
      }
    }

    /** The index loops of `makeSphere`, one stack at a time. */
    method AppendSphereTriangles(sectorCount: int, stackCount: int)
      modifies this`triangleIndices
      ensures triangleIndices == old(triangleIndices) + SphereTriangles(sectorCount, stackCount)
    {
      var i := 0;
      while i < stackCount
        invariant 0 <= i <= if stackCount < 0 then 0 else stackCount
        invariant triangleIndices == old(triangleIndices) + SphereTriangleRows(sectorCount, stackCount, i)
      {
        AppendStackTriangles(sectorCount, stackCount, i);
        i := i + 1;
      }
    }

    /** The inner index loop of `makeSphere`: k1 and k2 advance along stacks i and i + 1. */
    method AppendStackTriangles(sectorCount: int, stackCount: int, i: int)
      modifies this`triangleIndices
      ensures triangleIndices == old(triangleIndices) + StackTriangles(sectorCount, stackCount, i, sectorCount)
    {
      var k1 := i * (sectorCount + 1);
      var k2 := k1 + sectorCount + 1;
      var j := 0;
      while j < sectorCount
        invariant 0 <= j <= if sectorCount < 0 then 0 else sectorCount
        invariant k1 == i * (sectorCount + 1) + j && k2 == k1 + sectorCount + 1
        invariant triangleIndices == old(triangleIndices) + StackTriangles(sectorCount, stackCount, i, j)
      {
        if i != 0 {
          triangleIndices := triangleIndices + [Triangle(k1, k2, k1 + 1)];
        }
        if i != stackCount - 1 {
          triangleIndices := triangleIndices + [Triangle(k1 + 1, k2, k2 + 1)];
        }
        j, k1, k2 := j + 1, k1 + 1, k2 + 1;
      }
    }

    /**
     * `makeCube`: sets the corner positions, colours, normals and the twelve
     * triangles, then appends one vertex per corner.
     */
    method MakeCube(position: Vec3, color: Vec4, size: real)
      modifies this`vertices, this`triangleIndices, this`vertexPositions, this`vertexColors, this`vertexNormals
      ensures vertexPositions == CubePositions(position, size)
      ensures vertexColors == seq(8, _ => color)
      ensures vertexNormals == CubeNormals()
      ensures triangleIndices == CubeTriangles()
      ensures |vertices| == |old(vertices)| + 8 && vertices[..|old(vertices)|] == old(vertices)
      ensures forall n :: 0 <= n < 8 ==>
        vertices[|old(vertices)| + n] == Vertex(CubePositions(position, size)[n], CubeNormals()[n], color)
    {
      vertexPositions := CubePositions(position, size);
      vertexColors := seq(8, _ => color);
      vertexNormals := CubeNormals();
      triangleIndices := CubeTriangles();
      var i := 0;
      while i < |vertexPositions|
        invariant 0 <= i <= 8
        invariant vertexPositions == CubePositions(position, size) && vertexNormals == CubeNormals()
        invariant vertexColors == seq(8, _ => color) && triangleIndices == CubeTriangles()
        invariant |vertices| == |old(vertices)| + i && vertices[..|old(vertices)|] == old(vertices)
        invariant forall n :: 0 <= n < i ==>
          vertices[|old(vertices)| + n] == Vertex(vertexPositions[n], vertexNormals[n], vertexColors[n])
      {
        vertices := vertices + [Vertex(vertexPositions[i], vertexNormals[i], vertexColors[i])];
        i := i + 1;
      }
    }

    /**
     * `makePlane`: replaces the vertices with the four corners, all with the
     * given colour and the normalised normal, and the triangles with the two
     * halves of the quad.
     */
    method MakePlane(u: Vec3, v: Vec3, color: Vec4, size: real, normalize: Vec3 -> Vec3)
      modifies this`vertices, this`triangleIndices
      ensures |vertices| == 4 && triangleIndices == PlaneTriangles()
      ensures forall n :: 0 <= n < 4 ==>
        vertices[n] == Vertex(PlaneCorners(u, v, size)[n], normalize(PlaneNormalDirection(u, v, size)), color)
      ensures Drawable()
    {
      var su, sv := Scale(u, size), Scale(v, size);
      var a := Add(su, sv);
      var b := Sub(su, sv);
      var c := Sub(Neg(su), sv);
      var d := Add(Neg(su), sv);
      var normal := normalize(Cross(Sub(b, a), Sub(d, a)));
      vertices := [Vertex(a, normal, color), Vertex(b, normal, color), Vertex(c, normal, color), Vertex(d, normal, color)];
      triangleIndices := PlaneTriangles();
      PlaneTrianglesFit();
    }
  }

  /** A sphere made on an empty mesh is drawable: no index passes the vertex buffer. */
  lemma SphereOnEmptyDrawable(shape: SphereShape, sectorCount: int, stackCount: int)
    requires sectorCount >= 0 && stackCount >= 0
    ensures IndicesBelow(SphereTriangles(sectorCount, stackCount), |SphereVertices(shape, sectorCount, stackCount)|)
  {
    SphereVerticesLayout(shape, sectorCount, stackCount);
    SphereTrianglesFit(sectorCount, stackCount);
  }

  /** A cube made on an empty mesh is drawable, and every vertex carries the given colour. */
  lemma CubeOnEmptyDrawable(position: Vec3, color: Vec4, size: real, vertices: seq<Vertex>)
    requires |vertices| == 8
    requires forall n :: 0 <= n < 8 ==>
      vertices[n] == Vertex(CubePositions(position, size)[n], CubeNormals()[n], color)
    ensures IndicesBelow(CubeTriangles(), |vertices|)
    ensures forall n :: 0 <= n < |vertices| ==> vertices[n].color == color
  {
    CubeTrianglesFit();
  }
}
