/**
  The data model of the MeshML exporter: the records that flow from the host
  mesh through welding, skinning and partitioning into the exported model.
  Floating-point geometry is carried as plain values and never computed on.
 */
module MeshTypes {

  datatype Option<T> = None | Some(value: T)

  datatype Point3 = Point3(x: real, y: real, z: real)
  datatype Quat = Quat(x: real, y: real, z: real, w: real)
  datatype Color = Color(r: real, g: real, b: real)

  /** One face of the host mesh: three position indices, a smoothing-group
      bit mask and the host material id. */
  datatype Face = Face(v0: nat, v1: nat, v2: nat, smGroup: bv32, matId: nat)
  {
    /** mesh.faces[i].v[j] */
    function Vert(j: nat): nat
      requires j < 3
    {
      if j == 0 then v0 else if j == 1 then v1 else v2
    }
  }

  /** One (joint name, weight) entry of a bind list (binds_t). */
  datatype Bind = Bind(joint: string, weight: real)

  /** A joint record (joint_t); an empty parentName marks the root. */
  datatype Joint = Joint(parentName: string, bindPos: Point3, bindQuat: Quat)

  datatype TextureSlot = TextureSlot(slot: string, fileName: string)

  /** A material (material_t) with the eight fields the exporter compares. */
  datatype Material = Material(
    ambient: Color, diffuse: Color, specular: Color, emit: Color,
    opacity: real, specularLevel: real, shininess: real,
    textureSlots: seq<TextureSlot>)

  /** The welding key of a corner (the key part of vertex_index_t):
      position index, UV indices in channel order, smoothing-cluster index. */
  datatype VertexKey = VertexKey(pos: int, tex: seq<int>, sm: int)

  /** An output vertex. Its position, normal, tangent, binormal and UVs are all
      determined by the key it was welded from, so the key stands for them. */
  datatype Vertex = Vertex(source: VertexKey, binds: seq<Bind>)

  /** triangle_t: three indices into a vertex list. */
  datatype Triangle = Triangle(v0: nat, v1: nat, v2: nat)
  {
    function Corner(k: nat): nat
      requires k < 3
    {
      if k == 0 then v0 else if k == 1 then v1 else v2
    }

    function WithCorner(k: nat, x: nat): (t: Triangle)
      requires k < 3
      ensures t.Corner(k) == x
      ensures forall k' :: 0 <= k' < 3 && k' != k ==> t.Corner(k') == Corner(k')
    {
      if k == 0 then this.(v0 := x) else if k == 1 then this.(v1 := x) else this.(v2 := x)
    }

    predicate InRange(n: nat) {
      v0 < n && v1 < n && v2 < n
    }
  }

  datatype VertexUsage = Position | Normal | Tangent | Binormal | TextureCoord | BlendWeight | BlendIndex

  /** vertex_element_t: usage, usage index, number of components. */
  datatype VertexElement = VertexElement(usage: VertexUsage, usageIndex: nat, numComponents: nat)

  /** The generated mesh names; the text formatting of the exporter is not modelled. */
  datatype MeshName =
    | ObjectName(obj: string)                     // the node's own name
    | PerMaterialName(obj: string, mtlOffset: nat) // "<obj>__mat_<offset>"
    | CombinedName(mtl: nat, group: nat)           // "mesh_for_mtl_<mtl>_ve_<group>"

  /** object_info_t: one exported mesh. */
  datatype ObjectInfo = ObjectInfo(
    name: MeshName, mtlId: nat, vertexElements: seq<VertexElement>,
    vertices: seq<Vertex>, triangles: seq<Triangle>)

  /** Every triangle of the mesh indexes into its own vertex list. */
  ghost predicate IndicesInRange(o: ObjectInfo) {
    forall t :: 0 <= t < |o.triangles| ==> o.triangles[t].InRange(|o.vertices|)
  }

  ghost predicate NoDuplicates<T>(s: seq<T>) {
    forall a, b :: 0 <= a < b < |s| ==> s[a] != s[b]
  }
}
