/** Copy-on-write sharing of mesh data (`3escore/shapes/SimpleMesh.cpp`): handles share one body until
    one of them writes. */
module SharedMeshes {
  import opened Bytes
  import opened Meshes

  /** The loop of all `set...` operations. */
  method Overwrite(target: seq<Element>, at: nat, values: seq<Element>) returns (result: seq<Element>, count: nat)
    ensures result == Overlaid(target, at, values)
    ensures count == if |target| <= at then 0 else if |target| - at < |values| then |target| - at else |values|
  {
    var i := at;
    result, count := target, 0;
    while i < at + |values| && i < |result|
      invariant at <= i <= at + |values| && count == i - at && |result| == |target| && (i <= |target| || i == at)
      invariant forall k :: 0 <= k < |target| ==> result[k] == if at <= k < i then values[k - at] else target[k]
    {
      result := result[i := values[i - at]];
      i, count := i + 1, count + 1;
    }
  }

  /** The shared body, and how many handles hold it; `owners` says which. */
  class SimpleMeshImp {
    var mesh: Mesh
    var useCount: nat
    ghost var owners: set<SimpleMesh>

    ghost predicate Counted()
      reads this
    {
      useCount == |owners|
    }

    constructor (mesh: Mesh)
      ensures this.mesh == mesh && useCount == 0 && owners == {}
    {
      this.mesh, useCount, owners := mesh, 0, {};
    }

    /** A stream that is wanted and empty is made; any other is emptied. */
    static method Chosen(wanted: bool, stream: seq<Element>, n: nat) returns (chosen: seq<Element>)
      ensures chosen == if wanted && stream == [] then Zeroes(n) else []
    {
      if wanted && stream == [] {
        chosen := Resized(stream, n, 0);
      } else {
        chosen := [];
      }
    }

    method ChooseComponents(wanted: set<Component>)
      modifies `mesh
      ensures mesh == WithComponents(old(mesh), wanted)
    {
      mesh := mesh.(components := wanted + {Vertex});
      if Index !in mesh.components && mesh.indices != [] {
        mesh := mesh.(indices := []);
      }
      var colours := Chosen(Colour in mesh.components, mesh.colours, |mesh.vertices|);
      mesh := mesh.(colours := colours);
      var normals := Chosen(Normal in mesh.components, mesh.normals, |mesh.vertices|);
      mesh := mesh.(normals := normals);
      var uvs := Chosen(Uv in mesh.components, mesh.uvs, |mesh.vertices|);
      mesh := mesh.(uvs := uvs);
    }

    method ResizeVertices(n: nat)
      modifies `mesh
      ensures mesh == WithVertexCount(old(mesh), n)
    {
      mesh := mesh.(vertices := Resized(mesh.vertices, n, 0));
      if Colour in mesh.components {
        mesh := mesh.(colours := Resized(mesh.colours, |mesh.vertices|, 0));
      }
      if Normal in mesh.components {
        mesh := mesh.(normals := Resized(mesh.normals, |mesh.vertices|, 0));
      }
      if Uv in mesh.components {
        mesh := mesh.(uvs := Resized(mesh.uvs, |mesh.vertices|, 0));
      }
    }

    method ResizeIndices(n: nat)
      modifies `mesh
      ensures mesh == WithIndexCount(old(mesh), n)
    {
      mesh := mesh.(indices := Resized(mesh.indices, n, 0));
      if n != 0 {
        mesh := mesh.(components := mesh.components + {Index});
      }
    }

    method AppendVertices(values: seq<Element>)
      modifies `mesh
      ensures mesh == Mutated(old(mesh), AddVertices(values))
    {
      var offset := |mesh.vertices|;
      ghost var before := mesh.vertices;
      ResizeVertices(offset + |values|);
      var vertices, _ := Overwrite(mesh.vertices, offset, values);
      assert vertices == before + values;
      mesh := mesh.(vertices := vertices);
    }

    method AppendIndices(values: seq<Element>)
      modifies `mesh
      ensures mesh == Mutated(old(mesh), AddIndices(values))
    {
      var offset := |mesh.indices|;
      ghost var before := mesh.indices;
      ResizeIndices(offset + |values|);
      var indices, _ := Overwrite(mesh.indices, offset, values);
      assert indices == before + values;
      mesh := mesh.(indices := indices);
    }

    method ChangeNormals(at: nat, values: seq<Element>)
      modifies `mesh
      ensures mesh == WithNormals(old(mesh), at, values)
    {
      if Normal !in mesh.components && mesh.vertices != [] {
        mesh := mesh.(normals := Resized(mesh.normals, |mesh.vertices|, 0));
        mesh := mesh.(components := mesh.components + {Normal});
      }
      var normals, _ := Overwrite(mesh.normals, at, values);
      mesh := mesh.(normals := normals);
    }

    method ChangeColours(at: nat, values: seq<Element>)
      modifies `mesh
      ensures mesh == WithColours(old(mesh), at, values)
    {
      if Colour !in mesh.components && mesh.vertices != [] {
        mesh := mesh.(colours := Resized(mesh.colours, |mesh.vertices|, 0));
        mesh := mesh.(components := mesh.components + {Colour});
      }
      var colours, _ := Overwrite(mesh.colours, at, values);
      mesh := mesh.(colours := colours);
    }

    method ChangeUvs(at: nat, values: seq<Element>)
      modifies `mesh
      ensures mesh == WithUvs(old(mesh), at, values)
    {
      if Uv !in mesh.components && mesh.vertices != [] {
        mesh := mesh.(uvs := Resized(mesh.uvs, |mesh.vertices|, 0));
        mesh := mesh.(components := mesh.components + {Uv});
      }
      var uvs, _ := Overwrite(mesh.uvs, at, values);
      mesh := mesh.(uvs := uvs);
    }

    /** The body of each mutator, once the handle is the only one. */
    method Edit(mu: Mutator)
      requires !mu.Clear?
      modifies `mesh
      ensures mesh == Mutated(old(mesh), mu) && Seen(old(mesh), mu, mesh)
    {
      MutatedIsSeen(mesh, mu);
      match mu
      case SetTransform(t) => mesh := mesh.(transform := t);
      case SetTint(t) => mesh := mesh.(tint := t);
      case SetDrawType(t) => mesh := mesh.(drawType := t);
      case SetDrawScale(s) => mesh := mesh.(drawScale := s);
      case SetComponents(wanted) => ChooseComponents(wanted);
      case SetVertexCount(n) => ResizeVertices(n);
      case ReserveCounts =>
      case AddVertices(vs) => AppendVertices(vs);
      case SetVertices(at, vs) =>
        var vertices, _ := Overwrite(mesh.vertices, at, vs);
        mesh := mesh.(vertices := vertices);
      case SetIndexCount(n) => ResizeIndices(n);
      case AddIndices(vs) => AppendIndices(vs);
      case SetIndices(at, vs) =>
        var indices, _ := Overwrite(mesh.indices, at, vs);
        mesh := mesh.(indices := indices);
      case SetNormals(at, vs) => ChangeNormals(at, vs);
      case SetColours(at, vs) => ChangeColours(at, vs);
      case SetUvs(at, vs) => ChangeUvs(at, vs);
    }
  }

  class SimpleMesh {
    var imp: SimpleMeshImp

    constructor (id: nat)
      ensures fresh(imp) && imp.Counted() && imp.owners == {this} && imp.mesh == Blank(id, {Vertex, Index})
    {
      imp := new SimpleMeshImp(Blank(id, {Vertex, Index}));
      new;
      imp.useCount, imp.owners := 1, {this};
    }

    /** Copying a mesh shares its body. */
    constructor Copy(other: SimpleMesh)
      requires other.imp.Counted()
      modifies other.imp`useCount, other.imp`owners
      ensures imp == other.imp && imp.Counted() && imp.owners == old(other.imp.owners) + {this}
    {
      imp := other.imp;
      new;
      imp.useCount, imp.owners := imp.useCount + 1, imp.owners + {this};
    }

    /** Let go of the body. */
    method Drop()
      requires imp.Counted() && this in imp.owners
      modifies imp`useCount, imp`owners
      ensures imp.Counted() && imp.owners == old(imp.owners) - {this}
    {
      imp.useCount, imp.owners := imp.useCount - 1, imp.owners - {this};
    }

    /** Let go of the body and take a new one. */
    method Replace(mesh: Mesh)
      requires imp.Counted() && this in imp.owners
      modifies this, imp`useCount, imp`owners
      ensures fresh(imp) && imp.Counted() && imp.owners == {this} && imp.mesh == mesh
      ensures old(imp).Counted() && old(imp).owners == old(imp.owners) - {this}
    {
      Drop();
      imp := new SimpleMeshImp(mesh);
      imp.useCount, imp.owners := 1, {this};
    }

    method CopyOnWrite()
      requires imp.Counted() && this in imp.owners
      modifies this, imp`useCount, imp`owners
      ensures imp.Counted() && imp.owners == {this} && imp.mesh == old(imp.mesh)
      ensures
        || (imp == old(imp) && old(imp.owners) == {this})
        || (fresh(imp) && old(imp).Counted() && old(imp).owners == old(imp.owners) - {this})
    {
      if imp.useCount > 1 {
        Replace(imp.mesh);
      } else {
        OnlyOne(imp.owners, this);
      }
    }

    /** Every mutator: `clear` starts afresh; the others copy on write and edit the body. */
    method Mutate(mu: Mutator)
      requires imp.Counted() && this in imp.owners
      modifies this, imp
      ensures imp.Counted() && imp.owners == {this}
      ensures imp.mesh == Mutated(old(imp.mesh), mu) && Seen(old(imp.mesh), mu, imp.mesh)
      ensures
        || (imp == old(imp) && old(imp.owners) == {this})
        || (fresh(imp) && old(imp).Counted() && old(imp).owners == old(imp.owners) - {this}
            && old(imp).mesh == old(imp.mesh))
    {
      MutatedIsSeen(imp.mesh, mu);
      if mu.Clear? {
        if imp.useCount == 1 {
          OnlyOne(imp.owners, this);
          imp.mesh := Blank(0, {Vertex, Index});
        } else {
          Replace(Blank(0, {Vertex, Index}));
        }
      } else {
        CopyOnWrite();
        imp.Edit(mu);
      }
    }
  }

  lemma OnlyOne<T>(s: set<T>, x: T)
    requires |s| <= 1 && x in s
    ensures s == {x}
  {
    assert |s - {x}| == 0;
  }

  // ---------------------------------------------------------------- families of handles

  /** What users do with named handles; nothing happens if the name is taken, or is not there. */
  datatype FamilyOp =
    | Create(name: nat, id: nat) | Copy(name: nat, from: nat) | Mutate(name: nat, mutator: Mutator) | Destroy(name: nat)

  /** What the family holds if every copy is deep. */
  function After(meshes: map<nat, Mesh>, op: FamilyOp): map<nat, Mesh> {
    match op
    case Create(name, id) => if name in meshes then meshes else meshes[name := Blank(id, {Vertex, Index})]
    case Copy(name, from) => if name in meshes || from !in meshes then meshes else meshes[name := meshes[from]]
    case Mutate(name, mu) => if name in meshes then meshes[name := Mutated(meshes[name], mu)] else meshes
    case Destroy(name) => meshes - {name}
  }

  function AfterAll(ops: seq<FamilyOp>): map<nat, Mesh> {
    if ops == [] then map[] else After(AfterAll(ops[..|ops| - 1]), ops[|ops| - 1])
  }

  /** A mesh that was just created. */
  predicate IsNew(m: Mesh, id: nat) {
    && m.vertices == m.indices == m.colours == m.normals == m.uvs == [] && m.components == {Vertex, Index}
    && m.transform == IDENTITY_TRANSFORM && m.id == id && m.tint == WHITE
    && m.drawType == TRIANGLES && m.drawScale == 0.0
  }

  /** An operation concerns the mesh that it names, and no other. */
  ghost predicate Happened(before: map<nat, Mesh>, op: FamilyOp, after: map<nat, Mesh>) {
    && (forall k :: k != op.name ==> (k in after <==> k in before) && (k in before ==> after[k] == before[k]))
    && match op
       case Create(name, id) =>
         name in after && if name in before then after[name] == before[name] else IsNew(after[name], id)
       case Copy(name, from) =>
         if name !in before && from in before then name in after && after[name] == before[from]
         else (name in after <==> name in before) && (name in before ==> after[name] == before[name])
       case Mutate(name, mu) =>
         (name in after <==> name in before) && (name in before ==> Seen(before[name], mu, after[name]))
       case Destroy(name) => name !in after
  }

  lemma AfterHappened(before: map<nat, Mesh>, op: FamilyOp)
    ensures Happened(before, op, After(before, op))
  {
    if op.Mutate? && op.name in before {
      MutatedIsSeen(before[op.name], op.mutator);
    }
  }

  lemma AfterOneMore(ops: seq<FamilyOp>, i: nat)
    requires i < |ops|
    ensures AfterAll(ops[..i + 1]) == After(AfterAll(ops[..i]), ops[i])
  {
    assert ops[..i + 1][..i] == ops[..i];
  }

  class Family {
    var handles: map<nat, SimpleMesh>
    ghost var footprint: set<object>

    /** Different names are different handles, and each is an owner of its body. */
    ghost predicate Valid()
      reads this, footprint
    {
      && this !in footprint
      && (forall k :: k in handles ==> handles[k] in footprint && handles[k].imp in footprint)
      && (forall k :: k in handles ==> handles[k].imp.Counted() && handles[k] in handles[k].imp.owners)
      && forall k, l :: k in handles && l in handles && handles[k] == handles[l] ==> k == l
    }

    /** Each handle shows its mesh. */
    ghost predicate Shows(meshes: map<nat, Mesh>)
      requires Valid()
      reads this, footprint
    {
      handles.Keys == meshes.Keys && forall k :: k in handles ==> handles[k].imp.mesh == meshes[k]
    }

    constructor ()
      ensures Valid() && Shows(map[]) && footprint == {}
    {
      handles, footprint := map[], {};
    }

    method Create(name: nat, id: nat)
      requires Valid() && name !in handles
      modifies this
      ensures Valid() && fresh(footprint - old(footprint)) && handles.Keys == old(handles.Keys) + {name}
      ensures handles[name].imp.mesh == Blank(id, {Vertex, Index})
      ensures forall k :: k in old(handles) ==> handles[k].imp.mesh == old(handles[k].imp.mesh)
    {
      var h := new SimpleMesh(id);
      handles := handles[name := h];
      footprint := footprint + {h, h.imp};
    }

    method Copy(name: nat, from: nat)
      requires Valid() && name !in handles && from in handles
      modifies this, footprint
      ensures Valid() && fresh(footprint - old(footprint)) && handles.Keys == old(handles.Keys) + {name}
      ensures handles[name].imp.mesh == old(handles[from].imp.mesh)
      ensures forall k :: k in old(handles) ==> handles[k].imp.mesh == old(handles[k].imp.mesh)
    {
      var h := new SimpleMesh.Copy(handles[from]);
      handles := handles[name := h];
      footprint := footprint + {h};
    }

    method Mutate(name: nat, mu: Mutator)
      requires Valid() && name in handles
      modifies this, footprint
      ensures Valid() && fresh(footprint - old(footprint)) && handles.Keys == old(handles.Keys)
      ensures handles[name].imp.mesh == Mutated(old(handles[name].imp.mesh), mu)
      ensures forall k :: k in old(handles) && k != name ==> handles[k].imp.mesh == old(handles[k].imp.mesh)
    {
      handles[name].Mutate(mu);
      footprint := footprint + {handles[name].imp};
    }

    method Destroy(name: nat)
      requires Valid() && name in handles
      modifies this, footprint
      ensures Valid() && footprint == old(footprint) && handles.Keys == old(handles.Keys) - {name}
      ensures forall k :: k in handles ==> handles[k].imp.mesh == old(handles[k].imp.mesh)
    {
      handles[name].Drop();
      handles := handles - {name};
    }
  }

  lemma ShowsOneMore(family: Family, meshes: map<nat, Mesh>, name: nat, mesh: Mesh)
    requires family.Valid() && family.handles.Keys == meshes.Keys && name in meshes
    requires family.handles[name].imp.mesh == mesh
    requires forall k :: k in meshes && k != name ==> family.handles[k].imp.mesh == meshes[k]
    ensures family.Shows(meshes[name := mesh])
  {
  }

  method PerformCreate(family: Family, name: nat, id: nat, ghost meshes: map<nat, Mesh>)
    requires family.Valid() && family.Shows(meshes)
    modifies family, family.footprint
    ensures family.Valid() && fresh(family.footprint - old(family.footprint))
      && family.Shows(After(meshes, Create(name, id)))
  {
    if name !in family.handles {
      family.Create(name, id);
    }
  }

  method PerformCopy(family: Family, name: nat, from: nat, ghost meshes: map<nat, Mesh>)
    requires family.Valid() && family.Shows(meshes)
    modifies family, family.footprint
    ensures family.Valid() && fresh(family.footprint - old(family.footprint))
      && family.Shows(After(meshes, Copy(name, from)))
  {
    if name !in family.handles && from in family.handles {
      family.Copy(name, from);
    }
  }

  method PerformMutate(family: Family, name: nat, mu: Mutator, ghost meshes: map<nat, Mesh>)
    requires family.Valid() && family.Shows(meshes)
    modifies family, family.footprint
    ensures family.Valid() && fresh(family.footprint - old(family.footprint))
      && family.Shows(After(meshes, Mutate(name, mu)))
  {
    if name in family.handles {
      family.Mutate(name, mu);
      ShowsOneMore(family, meshes, name, Mutated(meshes[name], mu));
    }
  }

  method PerformDestroy(family: Family, name: nat, ghost meshes: map<nat, Mesh>)
    requires family.Valid() && family.Shows(meshes)
    modifies family, family.footprint
    ensures family.Valid() && fresh(family.footprint - old(family.footprint))
      && family.Shows(After(meshes, Destroy(name)))
  {
    if name in family.handles {
      family.Destroy(name);
    } else {
      assert meshes - {name} == meshes;
    }
  }

  method Perform(family: Family, op: FamilyOp, ghost meshes: map<nat, Mesh>)
    requires family.Valid() && family.Shows(meshes)
    modifies family, family.footprint
    ensures family.Valid() && fresh(family.footprint - old(family.footprint)) && family.Shows(After(meshes, op))
  {
    match op
    case Create(name, id) => PerformCreate(family, name, id, meshes);
    case Copy(name, from) => PerformCopy(family, name, from, meshes);
    case Mutate(name, mu) => PerformMutate(family, name, mu, meshes);
    case Destroy(name) => PerformDestroy(family, name, meshes);
  }

  /** Copy-on-write refines deep copy: after any series of creations, copies, changes and deletions,
      each handle shows what it would show if every copy had been deep. */
  method RunFamily(ops: seq<FamilyOp>) returns (views: map<nat, Mesh>)
    ensures views == AfterAll(ops) && (ops == [] ==> views == map[])
    ensures ops != [] ==> Happened(AfterAll(ops[..|ops| - 1]), ops[|ops| - 1], views)
    ensures forall k :: k in views ==> WellMade(views[k])
  {
    var family := new Family();
    for i := 0 to |ops|
      invariant fresh(family) && fresh(family.footprint)
      invariant family.Valid() && family.Shows(AfterAll(ops[..i]))
    {
      Perform(family, ops[i], AfterAll(ops[..i]));
      AfterOneMore(ops, i);
    }
    assert ops[..|ops|] == ops;
    views := map k | k in family.handles :: family.handles[k].imp.mesh;
    FamilyIsWellMade(ops);
    if ops != [] {
      AfterHappened(AfterAll(ops[..|ops| - 1]), ops[|ops| - 1]);
    }
  }

  lemma {:induction false} FamilyIsWellMade(ops: seq<FamilyOp>)
    ensures forall k :: k in AfterAll(ops) ==> WellMade(AfterAll(ops)[k])
  {
    if ops != [] {
      var before, op := ops[..|ops| - 1], ops[|ops| - 1];
      FamilyIsWellMade(before);
      if op.Mutate? && op.name in AfterAll(before) {
        MutatedIsWellMade(AfterAll(before)[op.name], op.mutator);
      }
    }
  }
}
