# MeshML exporter core, modelled in Dafny

This project models the discrete core of `meshml_extractor`, KlayGE's
3DS Max to MeshML exporter (`KlayGE/Exporters/3DSMax/MeshML/mesh_extractor.cpp`).
That core is the index, map and set bookkeeping that turns the corners of a
node's faces into welded vertex and index buffers, one per material. It then
tidies the joints and materials of the whole scene before the file is written:

- **Smoothing clusters** (`smoothing.dfy`). Face material ids are folded into
  the node's material range. Each face joins, at each of its corner
  positions, the first cluster holding a face whose smoothing mask shares a
  bit with its own. Otherwise it opens a new cluster.
- **Corner welding** (`vertex_order.dfy`, `vertex_set.dfy`, `welding.dfy`).
  Every corner gets a `vertex_index_t` key: position index, UV indices in
  channel order, and the index of the last cluster holding the face. The key
  is taken in reversed corner order for mirrored nodes. The keys live in a
  `std::set` ordered by the key's `operator<`, modelled as a strictly
  ascending sequence. Equal keys merge their corner-slot lists by erase and
  re-insert. The set is then walked in order, and each entry's rank is
  written back into every slot it references.
- **Bind lists** (`skinning.dfy`). `add_joint_weight` merges weights by joint
  name. The influence limit then works in steps. An empty list gets the
  fallback joint with weight 1. A list longer than `joints_per_ver_` keeps
  its heaviest entries (`nth_element` under `bind_cmp`) and divides them by
  their sum. A shorter list is padded with zero-weight root entries.
- **Per-material partition** (`partition.dfy`). For every material of the
  node that has faces, the partition keeps that material's triangles in
  order. It keeps the referenced vertices in ascending index order, and the
  triangle indices are remapped to local ones.
- **Post-passes** (`joints.dfy`, `materials.dfy`, `combine.dfy`,
  `sort_meshes.dfy`):
  - `remove_redundant_joints` keeps the bound joints and their ancestors;
  - `remove_redundant_mtls` deduplicates materials through a mapping table;
  - `combine_meshes_with_same_mtl` merges the meshes of one material that
    share a vertex-element list, and rebases their indices;
  - `sort_meshes_by_mtl` sorts the meshes stably by material id;
  - the swap loop of `write_xml` puts every joint after its parent.
- **The exporter object** (`extractor.dfy`). Class `MeshmlExtractor` holds
  `joints_`, `objs_mtl_` and `objs_info_` as fields. `extract_object`
  appends to them node by node. `write_xml` runs the passes and numbers the
  joints.

Geometry is symbolic. An output vertex is `Vertex(source, binds)`, where
`source` is its welding key. The key fixes the position, the UVs and the
smoothing cluster, and through them the normal and tangent the exporter
computes. Weights are `real`.

## Model

| member | source | states |
|---|---|---|
| VertexOrder.SeqLessIrreflexive | KlayGE/Exporters/3DSMax/MeshML/mesh_extractor.cpp:69-80 | the lexicographic order on UV index vectors never puts a vector below itself |
| VertexOrder.SeqLessTransitive | KlayGE/Exporters/3DSMax/MeshML/mesh_extractor.cpp:69-80 | the lexicographic order on UV index vectors is transitive |
| VertexOrder.SeqLessTotal | KlayGE/Exporters/3DSMax/MeshML/mesh_extractor.cpp:69-80 | any two different UV index vectors are ordered one way |
| VertexOrder.KeyLessIrreflexive | KlayGE/Exporters/3DSMax/MeshML/mesh_extractor.cpp:55-93 | no key is below itself under vertex_index_t's operator< |
| VertexOrder.KeyLessTransitive | KlayGE/Exporters/3DSMax/MeshML/mesh_extractor.cpp:55-93 | vertex_index_t's operator< is transitive |
| VertexOrder.KeyLessAsymmetric | KlayGE/Exporters/3DSMax/MeshML/mesh_extractor.cpp:55-93 | two keys are never each below the other |
| VertexOrder.KeyEquivalenceIsEquality | KlayGE/Exporters/3DSMax/MeshML/mesh_extractor.cpp:55-93 | two keys are equivalent under operator< (neither below the other) exactly when position, UV indices and cluster are all equal, so the set merges exactly the equal keys |
| VertexOrder.StringLessIsStrictTotal | KlayGE/Exporters/3DSMax/MeshML/mesh_extractor.cpp:1193-1196 | the string order that sorts the joint map's keys is irreflexive, transitive and total |
| VertexOrder.SmallestNameExists | KlayGE/Exporters/3DSMax/MeshML/mesh_extractor.cpp:1193-1196 | every non-empty set of joint names has a least name, where iteration of the map starts |
| VertexSet.AllRefsConcat | KlayGE/Exporters/3DSMax/MeshML/mesh_extractor.cpp:544-589 | the corner slots referenced by two runs of set entries are those of the first followed by those of the second |
| VertexSet.LowerBound | KlayGE/Exporters/3DSMax/MeshML/mesh_extractor.cpp:579 | the lower bound of a key splits the entries into those below it and the first one not below it |
| VertexSet.Find | KlayGE/Exporters/3DSMax/MeshML/mesh_extractor.cpp:579-580 | set::find gives an entry holding exactly the key, or reports that no entry holds it |
| VertexSet.Erase | KlayGE/Exporters/3DSMax/MeshML/mesh_extractor.cpp:584 | erasing one entry keeps the set ordered and makes it one shorter |
| VertexSet.Insert | KlayGE/Exporters/3DSMax/MeshML/mesh_extractor.cpp:586-587 | inserting an absent key keeps the set strictly ordered and places the entry between the existing ones |
| VertexSet.EraseInsertIsUpdate | KlayGE/Exporters/3DSMax/MeshML/mesh_extractor.cpp:579-587 | erasing the entry of a key and re-inserting it with a longer slot list is the same as updating that entry in place |
| Smoothing.FoldMaterialId | KlayGE/Exporters/3DSMax/MeshML/mesh_extractor.cpp:485-489 | when the node has materials, a face's id lands in [base, size), and an id already inside the node's range is kept at base + id |
| Smoothing.ReadFaces | KlayGE/Exporters/3DSMax/MeshML/mesh_extractor.cpp:482-493 | one smoothing mask and one folded material id per face, and the corners' position indices read in reversed order (v[2], v[1], v[0]) |
| Smoothing.ClusterJoinable | KlayGE/Exporters/3DSMax/MeshML/mesh_extractor.cpp:511-519 | the l loop reports exactly whether some face of the cluster shares a smoothing bit with the face |
| Smoothing.PlaceFace | KlayGE/Exporters/3DSMax/MeshML/mesh_extractor.cpp:505-525 | the face joins the first cluster holding a face that shares a smoothing bit with it, or else opens a new singleton cluster; no other cluster changes and the face ends up in some cluster |
| Smoothing.PlaceCorners | KlayGE/Exporters/3DSMax/MeshML/mesh_extractor.cpp:503-525 | the j loop of one face: the clusters of every position become the face placed at that position from corner v[2] down to v[0] (the step of the fold), staying non-empty and sound |
| Smoothing.BuildSmoothingClusters | KlayGE/Exporters/3DSMax/MeshML/mesh_extractor.cpp:501-527 | one list of clusters per position, equal to the fold that places faces 0, 1, ... in turn at corners v[2], v[1], v[0], each joining the first cluster with a face sharing a smoothing bit or opening a new one; the clusters are non-empty, every member is a face with a corner at that position, and every corner's face is in some cluster of its position |
| Smoothing.PlaceKeeps | KlayGE/Exporters/3DSMax/MeshML/mesh_extractor.cpp:507-524 | the first-joinable placement keeps every placed face at its place and adds the new face |
| Smoothing.PlacedAboveKeeps | KlayGE/Exporters/3DSMax/MeshML/mesh_extractor.cpp:503-525 | placing a face at its corners keeps every face already at the position and places the face for each corner at that position |
| Smoothing.ClustersAtCover | KlayGE/Exporters/3DSMax/MeshML/mesh_extractor.cpp:501-527 | after the fold over the first n faces, every one of those faces is in a cluster of each of its corner positions |
| Welding.CornerOffset | KlayGE/Exporters/3DSMax/MeshML/mesh_extractor.cpp:551-559 | the UV offset stays inside the triangle: the same slot when not mirrored, and the reversed corner when mirrored |
| Welding.LastClusterOf | KlayGE/Exporters/3DSMax/MeshML/mesh_extractor.cpp:567-577 | the cluster index of the key holds the face, and no later cluster does (the scan keeps the last match) |
| Welding.UvAt | KlayGE/Exporters/3DSMax/MeshML/mesh_extractor.cpp:562-565 | the UV part of the key has one index per channel, read at the corner's offset in channel order |
| Welding.MakeCornerKey | KlayGE/Exporters/3DSMax/MeshML/mesh_extractor.cpp:549-577 | the loop-built key of corner (i, j) equals the key its slot i*3+j is specified to have |
| Welding.AddReference | KlayGE/Exporters/3DSMax/MeshML/mesh_extractor.cpp:579-587 | the set stays strictly ordered; an existing key has the slot appended to its list, a new key gets a new one-slot entry, and the referenced slots grow by exactly this slot |
| Welding.WeldSlot | KlayGE/Exporters/3DSMax/MeshML/mesh_extractor.cpp:549-587 | after one corner, every entry still carries the key of each slot it lists, and slots 0..slot each occur once |
| Welding.WeldFace | KlayGE/Exporters/3DSMax/MeshML/mesh_extractor.cpp:547-588 | after one face, the same invariant holds up to slot i*3+3 |
| Welding.WeldCorners | KlayGE/Exporters/3DSMax/MeshML/mesh_extractor.cpp:544-589 | after the weld loop the set is strictly ordered, so one entry per distinct key; each entry lists only slots of its own key, and every slot below 3F occurs exactly once |
| Welding.WeldPartitionsSlots | KlayGE/Exporters/3DSMax/MeshML/mesh_extractor.cpp:544-589 | the entries' slot lists partition {0..3F-1}: every slot belongs to exactly one entry and appears once in it |
| Welding.WriteBack | KlayGE/Exporters/3DSMax/MeshML/mesh_extractor.cpp:721-724 | exactly the referenced corners are overwritten with the new vertex index, and all other corners are unchanged |
| Welding.BuildVertices | KlayGE/Exporters/3DSMax/MeshML/mesh_extractor.cpp:689-731 | one vertex per set entry in set order, with the binds of its position; every slot an entry lists receives the entry's rank, and every corner gets an index below the vertex count |
| Welding.CornersCarryTheirKeys | KlayGE/Exporters/3DSMax/MeshML/mesh_extractor.cpp:689-731 | after the remap, the vertex each corner points to comes from exactly that corner's key |
| Welding.SharedVertexIffSameKey | KlayGE/Exporters/3DSMax/MeshML/mesh_extractor.cpp:544-589 | two corners share an output vertex if and only if their keys are equal |
| Welding.CornersInRange | KlayGE/Exporters/3DSMax/MeshML/mesh_extractor.cpp:721-724 | corner indices below n make every triangle index into a list of n vertices |
| Welding.WeldMesh | KlayGE/Exporters/3DSMax/MeshML/mesh_extractor.cpp:544-731 | the welded mesh has one triangle per face, all in range; each corner's vertex carries the corner's key and the binds of its position; corners share a vertex exactly when their keys agree; the vertices are in strictly ascending key order and every vertex is used |
| Skinning.AddJointWeight | KlayGE/Exporters/3DSMax/MeshML/mesh_extractor.cpp:900-919 | a weight of 0 or less leaves the list unchanged; otherwise an entry with the name gains exactly the weight and nothing else changes, or one new entry is appended; distinct names stay distinct, and each name's total weight grows by exactly the added weight |
| Skinning.AccumulateBinds | KlayGE/Exporters/3DSMax/MeshML/mesh_extractor.cpp:900-919 | a run of add_joint_weight calls gives distinct names with positive weights, each weighing the sum of the positive contributions to it, listed in the order of each name's first positive contribution |
| Skinning.AccumulatedIsUnique | KlayGE/Exporters/3DSMax/MeshML/mesh_extractor.cpp:900-919 | the contributions determine the accumulated bind list completely: its names, their weights and their order |
| Skinning.SelectHeaviest | KlayGE/Exporters/3DSMax/MeshML/mesh_extractor.cpp:642-645 | nth_element under bind_cmp (122-126) permutes the list so that no entry past position k is heavier than one before it |
| Skinning.TotalScaled | KlayGE/Exporters/3DSMax/MeshML/mesh_extractor.cpp:645-658 | dividing every weight by c divides the total by c |
| Skinning.NormalisedTotal | KlayGE/Exporters/3DSMax/MeshML/mesh_extractor.cpp:645-658 | dividing every weight by the total makes the weights sum to one |
| Skinning.TotalPositive | KlayGE/Exporters/3DSMax/MeshML/mesh_extractor.cpp:652 | a non-empty list of positive weights has a positive sum, as the assert requires |
| Skinning.Renormalise | KlayGE/Exporters/3DSMax/MeshML/mesh_extractor.cpp:645-658 | the kept weights have a positive sum and come out divided by it |
| Skinning.PadWithRoot | KlayGE/Exporters/3DSMax/MeshML/mesh_extractor.cpp:659-665 | the original entries followed by (root, 0) entries up to the limit |
| Skinning.LimitInfluences | KlayGE/Exporters/3DSMax/MeshML/mesh_extractor.cpp:619-665 | exactly joints_per_ver_ entries. A short list is kept and padded with zero-weight root entries. A long list keeps entries no lighter than any dropped one, divided by their positive sum |
| Skinning.TruncatedWeightsSumToOne | KlayGE/Exporters/3DSMax/MeshML/mesh_extractor.cpp:645-658 | after truncation the kept weights sum to one |
| Partition.MaterialTrianglesSelect | KlayGE/Exporters/3DSMax/MeshML/mesh_extractor.cpp:751-761 | a material's triangles are drawn from the mesh and are empty exactly when no face carries the material |
| Partition.CornerSetIsCorners | KlayGE/Exporters/3DSMax/MeshML/mesh_extractor.cpp:755-757 | index_set holds exactly the vertex indices the triangles reference |
| Partition.AscendingIsSortedSet | KlayGE/Exporters/3DSMax/MeshML/mesh_extractor.cpp:774 | iterating a std::set<int> lists exactly its elements, in strictly ascending order |
| Partition.CollectMaterial | KlayGE/Exporters/3DSMax/MeshML/mesh_extractor.cpp:751-761 | the j loop collects the material's triangles in original order, and their index set |
| Partition.IterateAscending | KlayGE/Exporters/3DSMax/MeshML/mesh_extractor.cpp:774-778 | the begin-to-end walk of the set yields the ascending listing |
| Partition.RankVertices | KlayGE/Exporters/3DSMax/MeshML/mesh_extractor.cpp:772-778 | local vertex k is the global vertex at the k-th index, and the mapping sends every listed index to its own rank |
| Partition.RemapTriangles | KlayGE/Exporters/3DSMax/MeshML/mesh_extractor.cpp:779-784 | every corner goes through the mapping, so it lands in range and names the same global index |
| Partition.BuildSubMesh | KlayGE/Exporters/3DSMax/MeshML/mesh_extractor.cpp:768-784 | one local vertex per referenced index, one local triangle per material triangle, and every remapped corner shows the same vertex as before |
| Partition.MaterialMesh | KlayGE/Exporters/3DSMax/MeshML/mesh_extractor.cpp:749-797 | a mesh is produced exactly when the material has faces; it holds exactly that material's triangles, remapped onto its ascending vertex subset, with the material id, name and vertex elements set |
| Partition.PartitionByMaterial | KlayGE/Exporters/3DSMax/MeshML/mesh_extractor.cpp:747-798 | the meshes have strictly ascending material ids in [base, size), one for each material that has faces and none for the others, and each is that material's partition |
| Joints.SortedNames | KlayGE/Exporters/3DSMax/MeshML/mesh_extractor.cpp:1193-1196 | the names of the joint map in key order, one per name |
| Joints.SortedNamesIsSortedSet | KlayGE/Exporters/3DSMax/MeshML/mesh_extractor.cpp:1193-1196 | the listing holds exactly the map's names, in strictly ascending order |
| Joints.SortedNamesAreDistinct | KlayGE/Exporters/3DSMax/MeshML/mesh_extractor.cpp:1193-1196 | no name is listed twice |
| Joints.IterateNames | KlayGE/Exporters/3DSMax/MeshML/mesh_extractor.cpp:1193-1196 | the walk over the map builds exactly the sorted listing |
| Joints.BindNames | KlayGE/Exporters/3DSMax/MeshML/mesh_extractor.cpp:1012-1017 | the names bound by a vertex are exactly the joint names of its binds |
| Joints.MeshBindNamesAreBound | KlayGE/Exporters/3DSMax/MeshML/mesh_extractor.cpp:1008-1019 | joints_used holds exactly the names bound by some vertex of some mesh |
| Joints.CollectBoundNames | KlayGE/Exporters/3DSMax/MeshML/mesh_extractor.cpp:1008-1019 | the collection loop builds exactly that set |
| Joints.InsertAncestors | KlayGE/Exporters/3DSMax/MeshML/mesh_extractor.cpp:1024-1030 | the parent walk from one bound joint adds only joints its used set reaches, and leaves the added names closed under parents present in the map |
| Joints.InsertAllAncestors | KlayGE/Exporters/3DSMax/MeshML/mesh_extractor.cpp:1021-1032 | after all walks, the set holds the used names plus only reachable ancestors, and every member's present parent is in it |
| Joints.KeptAreReachable | KlayGE/Exporters/3DSMax/MeshML/mesh_extractor.cpp:1021-1032 | a parent-closed set of reachable names containing the used ones is exactly the set of joints the used names reach |
| Joints.KeptNames | KlayGE/Exporters/3DSMax/MeshML/mesh_extractor.cpp:1021-1032 | a joint is kept if and only if it is bound or an ancestor of a bound joint |
| Joints.EraseUnkept | KlayGE/Exporters/3DSMax/MeshML/mesh_extractor.cpp:1033-1043 | the map keeps exactly the kept names, and their records are unchanged |
| Joints.RemoveRedundantJoints | KlayGE/Exporters/3DSMax/MeshML/mesh_extractor.cpp:1006-1044 | the surviving joints are exactly the bound ones and their ancestors through present parent links, with records unchanged |
| Joints.KeptJointsClosed | KlayGE/Exporters/3DSMax/MeshML/mesh_extractor.cpp:1006-1044 | the pruned map stays acyclic, and a surviving joint's parent, if it was present, survives too |
| Joints.FindName | KlayGE/Exporters/3DSMax/MeshML/mesh_extractor.cpp:1207-1210 | std::find gives the first position of the parent name |
| Joints.FirstMisplaced | KlayGE/Exporters/3DSMax/MeshML/mesh_extractor.cpp:1202-1219 | the scan reports the first joint whose parent sits later, with the parent's position, every earlier joint having its parent at or before it; or that every parent is at or before its child |
| Joints.PotentialBounded | KlayGE/Exporters/3DSMax/MeshML/mesh_extractor.cpp:1198-1220 | the termination measure, each joint's rank (a number that exceeds its parent's, which exists when the links are acyclic) times its position, summed over the order, is bounded |
| Joints.SwapRaisesPotential | KlayGE/Exporters/3DSMax/MeshML/mesh_extractor.cpp:1213-1218 | swapping a child with its later parent strictly raises the measure |
| Joints.SwapFirstMisplaced | KlayGE/Exporters/3DSMax/MeshML/mesh_extractor.cpp:1201-1219 | one pass of the for loop either swaps exactly the first misplaced joint with its parent, raising the measure and keeping a duplicate-free permutation of the names, or leaves the order unchanged with every parent at or before its child |
| Joints.NoJointIsItsOwnParent | KlayGE/Exporters/3DSMax/MeshML/mesh_extractor.cpp:1243 | in an acyclic map, "parent at or before" is "parent strictly before" |
| Joints.SwapIsPermutation | KlayGE/Exporters/3DSMax/MeshML/mesh_extractor.cpp:1215 | std::swap of two places permutes the list |
| Joints.OrderJoints | KlayGE/Exporters/3DSMax/MeshML/mesh_extractor.cpp:1192-1220 | the while (swapped) loop terminates on an acyclic map whose parents are present, with a permutation of the joint names in which every joint's parent comes strictly earlier (the assert at 1243) |
| Joints.NumberJoints | KlayGE/Exporters/3DSMax/MeshML/mesh_extractor.cpp:1222-1225 | joints_name_to_id sends every ordered name to its position, and holds no other name |
| Materials.SameMaterialIsEquality | KlayGE/Exporters/3DSMax/MeshML/mesh_extractor.cpp:1055-1062 | the eight-field comparison is equality of materials |
| Materials.Distinct | KlayGE/Exporters/3DSMax/MeshML/mesh_extractor.cpp:1048-1076 | the distinct materials are never more than the input |
| Materials.DistinctMembers | KlayGE/Exporters/3DSMax/MeshML/mesh_extractor.cpp:1048-1076 | the pass keeps every material and adds none |
| Materials.DistinctHasNoDuplicates | KlayGE/Exporters/3DSMax/MeshML/mesh_extractor.cpp:1048-1076 | no two kept materials are equal |
| Materials.FirstIndex | KlayGE/Exporters/3DSMax/MeshML/mesh_extractor.cpp:1052-1067 | the first position holding a material |
| Materials.DistinctKeepsFirstOccurrenceOrder | KlayGE/Exporters/3DSMax/MeshML/mesh_extractor.cpp:1048-1076 | the kept materials appear in the order of their first occurrences |
| Materials.FindMaterial | KlayGE/Exporters/3DSMax/MeshML/mesh_extractor.cpp:1052-1067 | the j loop finds a kept material equal to the current one, or shows that none is |
| Materials.DedupMaterials | KlayGE/Exporters/3DSMax/MeshML/mesh_extractor.cpp:1048-1074 | mtls_used is the distinct list, and mtl_mapping[i] is in range with mtls_used[mtl_mapping[i]] equal to material i |
| Materials.RemapMaterialIds | KlayGE/Exporters/3DSMax/MeshML/mesh_extractor.cpp:1078-1082 | every mesh's material id goes through the mapping, and nothing else in it changes |
| Materials.RemoveRedundantMtls | KlayGE/Exporters/3DSMax/MeshML/mesh_extractor.cpp:1046-1083 | the new list has no duplicates, and every mesh refers to a material equal to its old one, with all its other fields unchanged |
| Combine.Shifted | KlayGE/Exporters/3DSMax/MeshML/mesh_extractor.cpp:1136-1141 | every triangle index is shifted by the base, so a mesh's triangles index past the vertices merged before it |
| Combine.ShiftedCorners | KlayGE/Exporters/3DSMax/MeshML/mesh_extractor.cpp:1136-1141 | each corner of a shifted triangle is the old corner plus the base |
| Combine.MergedInRange | KlayGE/Exporters/3DSMax/MeshML/mesh_extractor.cpp:1126-1144 | merging meshes whose triangles are in range gives a mesh whose triangles are in range |
| Combine.MergedCornersResolve | KlayGE/Exporters/3DSMax/MeshML/mesh_extractor.cpp:1126-1144 | every merged corner shows the same vertex it showed in its own mesh |
| Combine.GroupsOfIsDistinctUses | KlayGE/Exporters/3DSMax/MeshML/mesh_extractor.cpp:1090-1112 | ves lists each vertex-element list used by the material's meshes once, in order of first use, and no others |
| Combine.CombinedKeys | KlayGE/Exporters/3DSMax/MeshML/mesh_extractor.cpp:1088-1146 | the (material, group) pairs, in the order the outer and inner loops visit them |
| Combine.CombinedStep | KlayGE/Exporters/3DSMax/MeshML/mesh_extractor.cpp:1114-1145 | one more material appends exactly its group meshes to the output |
| Combine.MembersAreTheMatching | KlayGE/Exporters/3DSMax/MeshML/mesh_extractor.cpp:1092-1112 | a group's members are exactly the input meshes of that material and vertex-element list, in input order |
| Combine.GroupMeshIsOutput | KlayGE/Exporters/3DSMax/MeshML/mesh_extractor.cpp:1114-1145 | a group mesh has the material, the group's vertex elements and the combined name, and is the concatenation of a non-empty group's vertices and shifted triangles |
| Combine.CombinedOutputs | KlayGE/Exporters/3DSMax/MeshML/mesh_extractor.cpp:1085-1149 | every output mesh is the merge of one non-empty group of inputs sharing a material and a vertex-element list |
| Combine.CombinedKeysAscend | KlayGE/Exporters/3DSMax/MeshML/mesh_extractor.cpp:1088-1146 | pairs visited later are lexicographically larger |
| Combine.CombinedKeysAscendAndDiffer | KlayGE/Exporters/3DSMax/MeshML/mesh_extractor.cpp:1085-1149 | output material ids never decrease, and two outputs of one material have different vertex elements: one output per group |
| Combine.CombinedKeysCover | KlayGE/Exporters/3DSMax/MeshML/mesh_extractor.cpp:1088-1146 | every group of every material below n is visited |
| Combine.CombinedCoversInputs | KlayGE/Exporters/3DSMax/MeshML/mesh_extractor.cpp:1085-1149 | every input mesh with a listed material lands in the output mesh of its group |
| Combine.TotalSizeAppend | KlayGE/Exporters/3DSMax/MeshML/mesh_extractor.cpp:1126-1144 | vertex and triangle counts add up over concatenation |
| Combine.MergedSize | KlayGE/Exporters/3DSMax/MeshML/mesh_extractor.cpp:1126-1144 | a merged mesh has as many vertices and triangles as its parts together |
| Combine.MembersStep | KlayGE/Exporters/3DSMax/MeshML/mesh_extractor.cpp:1092-1112 | one more input adds itself to exactly its own group |
| Combine.GroupSizesStep | KlayGE/Exporters/3DSMax/MeshML/mesh_extractor.cpp:1092-1112 | one further input adds to the groups of a material exactly its share: its size once for each listed group it matches |
| Combine.ShareOfDistinct | KlayGE/Exporters/3DSMax/MeshML/mesh_extractor.cpp:1092-1112 | with distinct vertex-element lists, an input of the material counts once if its list is among the groups, and not at all otherwise |
| Combine.GroupSizesAreMaterialSize | KlayGE/Exporters/3DSMax/MeshML/mesh_extractor.cpp:1090-1145 | a material's groups hold as many vertices and triangles as its input meshes |
| Combine.GroupMeshesSize | KlayGE/Exporters/3DSMax/MeshML/mesh_extractor.cpp:1114-1145 | the first group meshes of a material hold the counts of their groups |
| Combine.SizeBelowStep | KlayGE/Exporters/3DSMax/MeshML/mesh_extractor.cpp:1088 | the counts of materials below n+1 are those below n plus those of material n |
| Combine.MaterialKeepsCounts | KlayGE/Exporters/3DSMax/MeshML/mesh_extractor.cpp:1090-1145 | the output meshes of one material hold as many vertices and triangles as its inputs |
| Combine.CombinedKeepsCounts | KlayGE/Exporters/3DSMax/MeshML/mesh_extractor.cpp:1085-1149 | the output holds as many vertices and triangles as the inputs of the listed materials |
| Combine.SizeBelowAll | KlayGE/Exporters/3DSMax/MeshML/mesh_extractor.cpp:1085-1149 | when every mesh's material is listed, those are all the inputs' counts |
| Combine.CombinedInRange | KlayGE/Exporters/3DSMax/MeshML/mesh_extractor.cpp:1085-1149 | combined meshes index their own vertices when the inputs do |
| Combine.FindGroup | KlayGE/Exporters/3DSMax/MeshML/mesh_extractor.cpp:1097-1105 | the k loop finds the group with the mesh's vertex elements, or shows that none exists |
| Combine.MembersAbsent | KlayGE/Exporters/3DSMax/MeshML/mesh_extractor.cpp:1107-1111 | a vertex-element list not yet in ves has no members so far |
| Combine.GroupOne | KlayGE/Exporters/3DSMax/MeshML/mesh_extractor.cpp:1094-1112 | one input mesh either joins its existing group or opens a new one at the end of ves |
| Combine.GroupByElements | KlayGE/Exporters/3DSMax/MeshML/mesh_extractor.cpp:1090-1113 | ves and oids record exactly the material's groups and each input's group |
| Combine.AppendShifted | KlayGE/Exporters/3DSMax/MeshML/mesh_extractor.cpp:1134-1143 | the member's triangles are appended shifted by the current vertex count |
| Combine.MergeGroup | KlayGE/Exporters/3DSMax/MeshML/mesh_extractor.cpp:1126-1144 | the merged vertex and triangle lists of one group's members |
| Combine.MeshOfGroup | KlayGE/Exporters/3DSMax/MeshML/mesh_extractor.cpp:1117-1145 | the output mesh built for group j is the specified group mesh |
| Combine.BuildGroupMeshes | KlayGE/Exporters/3DSMax/MeshML/mesh_extractor.cpp:1114-1145 | one output mesh per group, each the specified group mesh |
| Combine.CombineMeshesWithSameMtl | KlayGE/Exporters/3DSMax/MeshML/mesh_extractor.cpp:1085-1149 | the loops build exactly the specified combined output |
| SortMeshes.InsertPair | KlayGE/Exporters/3DSMax/MeshML/mesh_extractor.cpp:1160 | inserting a new pair keeps the pairs strictly ascending and adds exactly that pair |
| SortMeshes.SortsStablyIsPermutation | KlayGE/Exporters/3DSMax/MeshML/mesh_extractor.cpp:1151-1169 | a stably sorting order lists every mesh position once |
| SortMeshes.SortedOrder | KlayGE/Exporters/3DSMax/MeshML/mesh_extractor.cpp:1153-1160 | sorting the (material id, position) pairs yields a stable order: ids ascend, and equal ids keep input order |
| SortMeshes.SortMeshesByMtl | KlayGE/Exporters/3DSMax/MeshML/mesh_extractor.cpp:1151-1169 | the meshes are a stable permutation of the input with non-decreasing material ids |
| Extractor.VertexElementsFor | KlayGE/Exporters/3DSMax/MeshML/mesh_extractor.cpp:733-745 | position, normal, tangent and binormal with three components, one two-component texture coordinate per channel, and the blend weight and index pair when skinned; no element is repeated |
| Extractor.PositionBinds | KlayGE/Exporters/3DSMax/MeshML/mesh_extractor.cpp:591-666 | one bind list per position, of exactly joints_per_ver_ entries: empty when no influences are kept, otherwise the position's contributions merged by add_joint_weight, in first-contribution order, and then limited, padded or renormalised as LimitInfluences states |
| Extractor.WeldNode | KlayGE/Exporters/3DSMax/MeshML/mesh_extractor.cpp:482-731 | the node's corners are welded as WeldMesh states, over the corner positions read v[2], v[1], v[0], the UV channels or the position fallback, the smoothing clusters of the fold, and bind lists limited per position; the face materials are the folded ids |
| Extractor.SplitNode | KlayGE/Exporters/3DSMax/MeshML/mesh_extractor.cpp:733-797 | for a welded node: strictly ascending material ids in the node's range, a mesh exactly for each material that has faces, each the sub-mesh of that material's triangles, named by SubMeshName and carrying the exact vertex-element list |
| Extractor.ExtractMeshes | KlayGE/Exporters/3DSMax/MeshML/mesh_extractor.cpp:482-798 | a node without faces yields nothing; otherwise there is a welded mesh of the node's corners, as WeldMesh states, whose per-material sub-meshes are exactly the node's output |
| Extractor.NodeOutputInRange | KlayGE/Exporters/3DSMax/MeshML/mesh_extractor.cpp:747-797 | every mesh a node yields names one of the node's materials and indexes its own vertices |
| Extractor.MeshmlExtractor.constructor | KlayGE/Exporters/3DSMax/MeshML/mesh_extractor.cpp:170-204 | the exporter starts with the joint map set up before any node is extracted (the root joint and the joints found in the scene) and no materials or meshes |
| Extractor.MeshmlExtractor.ExtractObject | KlayGE/Exporters/3DSMax/MeshML/mesh_extractor.cpp:387-798 | the node's materials are appended, and objs_info_ becomes the earlier meshes followed by the node's output as ExtractMeshes states it |
| Extractor.MeshmlExtractor.RemoveRedundantJointsPass | KlayGE/Exporters/3DSMax/MeshML/mesh_extractor.cpp:1006-1044 | joints_ keeps exactly the bound joints and their ancestors, materials and meshes unchanged |
| Extractor.MeshmlExtractor.RemoveRedundantMtlsPass | KlayGE/Exporters/3DSMax/MeshML/mesh_extractor.cpp:1046-1083 | objs_mtl_ becomes its distinct list and the meshes are remapped onto it |
| Extractor.MeshmlExtractor.CombinePass | KlayGE/Exporters/3DSMax/MeshML/mesh_extractor.cpp:1085-1149 | objs_info_ becomes the combined meshes, with the vertex and triangle totals kept |
| Extractor.MeshmlExtractor.SortPass | KlayGE/Exporters/3DSMax/MeshML/mesh_extractor.cpp:1151-1169 | objs_info_ becomes a stable permutation of itself sorted by material id |
| Extractor.MeshmlExtractor.WriteXml | KlayGE/Exporters/3DSMax/MeshML/mesh_extractor.cpp:1171-1226 | nothing changes if the file does not open; otherwise the redundant joints go, the materials are deduplicated and the meshes remapped onto them, then either combined or stably sorted by material id, and the joints are listed parents first and numbered by position |

## Left out

- 3DS Max host API. `get_material`, the mesh and UV queries, the modifier
  stack walks, and the Physique and Skin iteration are calls into the host
  SDK. They become parameters. A node's materials are a list. Its faces come
  as position indices, smoothing masks and material ids. Its UV corner
  indices are one list per channel in ascending channel order. Each position
  gets a list of (joint, weight) contributions, as the modifiers feed them
  to `add_joint_weight`. `find_joints` and the joint bind poses are not part
  of this model: the joint map is given to the constructor.
- Floating-point geometry is not modelled. This covers the normals,
  tangents and binormals (676-713), unit scaling and axis swaps, the UV
  matrix transforms (447-476), `less_Point2`, and the bind-pose blend of
  skinned positions (630-640, including its assert at 636). A vertex
  carries its welding key in place of its coordinates.
- Weights are mathematical reals, not `float`. Rounding in the
  renormalisation is not captured, and NaN, which would make the material
  comparison fail on equal materials, cannot occur.
- The UV transform lookup at 461-476 reads floating-point matrices and is
  part of the host query. Its material index is the face's id modulo the
  node's material count (463). For a node with no materials but a mapped UV
  channel, that is a division by zero in the source. The model has no such
  step: such a node yields no meshes, since the per-material loop (747) has
  an empty range.
- Name formatting. The `ostringstream` names (792-794, 1120-1122) are the
  symbolic `MeshName` values `ObjectName`, `PerMaterialName` and
  `CombinedName`.
- File output. The XML emission of `write_xml` is stream I/O. Whether the
  stream opened is the parameter `canOpen`. When it did not, no pass runs,
  and the model returns an empty order.
- The fallback joint found by walking up the node tree (622-627) and the
  root joint name are host queries. They become parameters.
- Skinning.SelectHeaviest: promises only the selection bound of
  `std::nth_element`, not which of several equally heavy entries survive.
- Skinning.LimitInfluences: in the truncating case this states only that
  the kept entries are a selection no lighter than the dropped ones. Which
  tied entry is kept is left open, as `nth_element` leaves it.
- SortMeshes.SortedOrder: `std::sort` is modelled by insertion into a
  strictly ascending list. Only the result is specified. Because the
  positions make every pair distinct, that result is unique.
- Joints.OrderJoints: the source does not check that the parent links are
  acyclic or that every non-empty parent name is a joint. The model takes
  both as preconditions. Without acyclicity the swap loop, and the parent
  walk of `remove_redundant_joints`, need not terminate. A non-empty parent
  name that is not in the list makes `std::find` return the end (1207-1210):
  the assert at 1209 fires, and without it `par_index` is the list's length,
  so the swap at 1215 reads and writes out of range.
- Extractor.PositionBinds: when `joints_per_ver_` is 0 the bind lists are
  empty. The modifier walk then adds nothing, and the vertices are written
  without blend elements.
- Smoothing.FoldMaterialId: when the node has no materials (the objects'
  material count equals the base), the face's own id is kept, as the
  source does.
