/** What a mesh (`3escore/shapes/SimpleMesh.cpp`) holds and how each operation changes it, as values:
    what every copy would hold if all copies were deep. */
module Meshes {
  import opened Bytes

  /** The bit pattern of one vertex, index, colour, normal or texture coordinate. */
  type Element = nat

  datatype Component = Vertex | Index | Colour | Normal | Uv

  datatype Mesh = Mesh(
    vertices: seq<Element>, indices: seq<Element>, colours: seq<Element>, normals: seq<Element>, uvs: seq<Element>,
    transform: nat, id: nat, tint: nat, components: set<Component>, drawType: nat, drawScale: real)

  const IDENTITY_TRANSFORM := 0
  const WHITE := 0xFFFF_FFFF
  const TRIANGLES := 2

  function Blank(id: nat, components: set<Component>): Mesh {
    Mesh([], [], [], [], [], IDENTITY_TRANSFORM, id, WHITE, components, TRIANGLES, 0.0)
  }

  function Zeroes(n: nat): (z: seq<Element>)
    ensures |z| == n
  {
    seq(n, _ => 0)
  }

  /** `values` laid over `target` from `at` on; what does not fit is dropped. */
  function Overlaid(target: seq<Element>, at: nat, values: seq<Element>): (r: seq<Element>)
    ensures |r| == |target|
  {
    seq(|target|, i requires 0 <= i < |target| => if at <= i < at + |values| then values[i - at] else target[i])
  }

  /** The public operations that change a mesh. */
  datatype Mutator =
    | SetTransform(transform: nat)
    | SetTint(tint: nat)
    | SetDrawType(drawType: nat)
    | SetDrawScale(drawScale: real)
    | SetComponents(components: set<Component>)
    | SetVertexCount(count: nat)
    | ReserveCounts
    | AddVertices(values: seq<Element>)
    | SetVertices(at: nat, values: seq<Element>)
    | SetIndexCount(count: nat)
    | AddIndices(values: seq<Element>)
    | SetIndices(at: nat, values: seq<Element>)
    | SetNormals(at: nat, values: seq<Element>)
    | SetColours(at: nat, values: seq<Element>)
    | SetUvs(at: nat, values: seq<Element>)
    | Clear

  /** `setComponents` empties a stream that is there as well as one whose flag is off. */
  function WithComponents(m: Mesh, components: set<Component>): Mesh {
    var all, n := components + {Vertex}, |m.vertices|;
    m.(components := all,
       indices := if Index in all then m.indices else [],
       colours := if Colour in all && m.colours == [] then Zeroes(n) else [],
       normals := if Normal in all && m.normals == [] then Zeroes(n) else [],
       uvs := if Uv in all && m.uvs == [] then Zeroes(n) else [])
  }

  function WithVertexCount(m: Mesh, n: nat): Mesh {
    m.(vertices := Resized(m.vertices, n, 0),
       colours := if Colour in m.components then Resized(m.colours, n, 0) else m.colours,
       normals := if Normal in m.components then Resized(m.normals, n, 0) else m.normals,
       uvs := if Uv in m.components then Resized(m.uvs, n, 0) else m.uvs)
  }

  function WithIndexCount(m: Mesh, n: nat): Mesh {
    m.(indices := Resized(m.indices, n, 0), components := if n != 0 then m.components + {Index} else m.components)
  }

  function WithNormals(m: Mesh, at: nat, values: seq<Element>): Mesh {
    if Normal !in m.components && m.vertices != []
    then m.(components := m.components + {Normal}, normals := Overlaid(Resized(m.normals, |m.vertices|, 0), at, values))
    else m.(normals := Overlaid(m.normals, at, values))
  }

  function WithColours(m: Mesh, at: nat, values: seq<Element>): Mesh {
    if Colour !in m.components && m.vertices != []
    then m.(components := m.components + {Colour}, colours := Overlaid(Resized(m.colours, |m.vertices|, 0), at, values))
    else m.(colours := Overlaid(m.colours, at, values))
  }

  function WithUvs(m: Mesh, at: nat, values: seq<Element>): Mesh {
    if Uv !in m.components && m.vertices != []
    then m.(components := m.components + {Uv}, uvs := Overlaid(Resized(m.uvs, |m.vertices|, 0), at, values))
    else m.(uvs := Overlaid(m.uvs, at, values))
  }

  function Mutated(m: Mesh, mu: Mutator): Mesh {
    match mu
    case SetTransform(t) => m.(transform := t)
    case SetTint(t) => m.(tint := t)
    case SetDrawType(t) => m.(drawType := t)
    case SetDrawScale(s) => m.(drawScale := s)
    case SetComponents(cs) => WithComponents(m, cs)
    case SetVertexCount(n) => WithVertexCount(m, n)
    case ReserveCounts => m
    case AddVertices(vs) => WithVertexCount(m, |m.vertices| + |vs|).(vertices := m.vertices + vs)
    case SetVertices(at, vs) => m.(vertices := Overlaid(m.vertices, at, vs))
    case SetIndexCount(n) => WithIndexCount(m, n)
    case AddIndices(vs) => WithIndexCount(m, |m.indices| + |vs|).(indices := m.indices + vs)
    case SetIndices(at, vs) => m.(indices := Overlaid(m.indices, at, vs))
    case SetNormals(at, vs) => WithNormals(m, at, vs)
    case SetColours(at, vs) => WithColours(m, at, vs)
    case SetUvs(at, vs) => WithUvs(m, at, vs)
    case Clear => Blank(0, {Vertex, Index})
  }

  /** Streams go with their flags, and those of vertices have one element for each. */
  predicate WellMade(m: Mesh) {
    && (m.indices != [] ==> Index in m.components)
    && (m.colours != [] ==> Colour in m.components && |m.colours| == |m.vertices|)
    && (m.normals != [] ==> Normal in m.components && |m.normals| == |m.vertices|)
    && (m.uvs != [] ==> Uv in m.components && |m.uvs| == |m.vertices|)
  }

  lemma MutatedIsWellMade(m: Mesh, mu: Mutator)
    requires WellMade(m)
    ensures WellMade(Mutated(m, mu))
  {
  }

  // ---------------------------------------------------------------- what a reader of a mesh sees

  /** The parts of a mesh that an operation may touch. */
  datatype Touched = Vertices | Indices | Colours | Normals | Uvs | Components | Transform | Tint | DrawType | DrawScale

  /** All other parts are as they were; no operation but `clear` changes the id. */
  predicate SameBut(m: Mesh, r: Mesh, touched: set<Touched>) {
    && r.id == m.id
    && (Vertices !in touched ==> r.vertices == m.vertices) && (Indices !in touched ==> r.indices == m.indices)
    && (Colours !in touched ==> r.colours == m.colours) && (Normals !in touched ==> r.normals == m.normals)
    && (Uvs !in touched ==> r.uvs == m.uvs) && (Components !in touched ==> r.components == m.components)
    && (Transform !in touched ==> r.transform == m.transform) && (Tint !in touched ==> r.tint == m.tint)
    && (DrawType !in touched ==> r.drawType == m.drawType) && (DrawScale !in touched ==> r.drawScale == m.drawScale)
  }

  /** A stream of that many elements: the old ones, as far as there are, and zeroes behind them. */
  predicate Extends(was: seq<Element>, n: nat, now: seq<Element>) {
    |now| == n && forall i :: 0 <= i < n ==> now[i] == if i < |was| then was[i] else 0
  }

  /** The new values where they are laid, and what was there before everywhere else. */
  predicate Shows(was: seq<Element>, at: nat, values: seq<Element>, now: seq<Element>) {
    && |now| == |was|
    && (forall i :: 0 <= i < |was| && i < at ==> now[i] == was[i])
    && (forall i :: at <= i < |was| && i < at + |values| ==> now[i] == values[i - at])
    && (forall i :: at + |values| <= i < |was| ==> now[i] == was[i])
  }

  /** The old elements where they were, and the new ones behind them. */
  predicate Appends(was: seq<Element>, values: seq<Element>, now: seq<Element>) {
    && |now| == |was| + |values|
    && (forall i :: 0 <= i < |was| ==> now[i] == was[i])
    && (forall i :: |was| <= i < |now| ==> now[i] == values[i - |was|])
  }

  /** The streams that go with the vertices have one element for each, if their flags say so. */
  predicate Follow(m: Mesh, n: nat, r: Mesh) {
    && (if Colour in m.components then Extends(m.colours, n, r.colours) else r.colours == m.colours)
    && (if Normal in m.components then Extends(m.normals, n, r.normals) else r.normals == m.normals)
    && (if Uv in m.components then Extends(m.uvs, n, r.uvs) else r.uvs == m.uvs)
  }

  /** A stream whose flag is set or not, after a change of the flags. */
  predicate Fresh(wanted: bool, was: seq<Element>, n: nat, now: seq<Element>) {
    if wanted && was == [] then Extends([], n, now) else now == []
  }

  /** Values laid over a stream of vertices, which gets its flag and elements if it had no flag. */
  predicate ShowsFlagged(m: Mesh, flag: Component, was: seq<Element>, at: nat, values: seq<Element>, r: Mesh,
      now: seq<Element>)
  {
    if flag !in m.components && m.vertices != [] then
      && r.components == m.components + {flag} && |now| == |m.vertices|
      && (forall i :: 0 <= i < |now| && !(at <= i < at + |values|) ==> now[i] == if i < |was| then was[i] else 0)
      && (forall i :: at <= i < |now| && i < at + |values| ==> now[i] == values[i - at])
    else r.components == m.components && Shows(was, at, values, now)
  }

  /** What a reader sees of a mesh after each of the operations. */
  predicate Seen(m: Mesh, mu: Mutator, r: Mesh) {
    match mu
    case SetTransform(t) => SameBut(m, r, {Transform}) && r.transform == t
    case SetTint(t) => SameBut(m, r, {Tint}) && r.tint == t
    case SetDrawType(t) => SameBut(m, r, {DrawType}) && r.drawType == t
    case SetDrawScale(s) => SameBut(m, r, {DrawScale}) && r.drawScale == s
    case SetComponents(cs) =>
      && SameBut(m, r, {Components, Indices, Colours, Normals, Uvs}) && r.components == cs + {Vertex}
      && r.indices == (if Index in cs then m.indices else [])
      && Fresh(Colour in cs, m.colours, |m.vertices|, r.colours)
      && Fresh(Normal in cs, m.normals, |m.vertices|, r.normals) && Fresh(Uv in cs, m.uvs, |m.vertices|, r.uvs)
    case SetVertexCount(n) =>
      SameBut(m, r, {Vertices, Colours, Normals, Uvs}) && Extends(m.vertices, n, r.vertices) && Follow(m, n, r)
    case ReserveCounts => r == m
    case AddVertices(vs) =>
      && SameBut(m, r, {Vertices, Colours, Normals, Uvs}) && Appends(m.vertices, vs, r.vertices)
      && Follow(m, |m.vertices| + |vs|, r)
    case SetVertices(at, vs) => SameBut(m, r, {Vertices}) && Shows(m.vertices, at, vs, r.vertices)
    case SetIndexCount(n) =>
      && SameBut(m, r, {Indices, Components}) && Extends(m.indices, n, r.indices)
      && r.components == m.components + if n != 0 then {Index} else {}
    case AddIndices(vs) =>
      && SameBut(m, r, {Indices, Components}) && Appends(m.indices, vs, r.indices)
      && r.components == m.components + if |m.indices| + |vs| != 0 then {Index} else {}
    case SetIndices(at, vs) => SameBut(m, r, {Indices}) && Shows(m.indices, at, vs, r.indices)
    case SetNormals(at, vs) =>
      SameBut(m, r, {Normals, Components}) && ShowsFlagged(m, Normal, m.normals, at, vs, r, r.normals)
    case SetColours(at, vs) =>
      SameBut(m, r, {Colours, Components}) && ShowsFlagged(m, Colour, m.colours, at, vs, r, r.colours)
    case SetUvs(at, vs) => SameBut(m, r, {Uvs, Components}) && ShowsFlagged(m, Uv, m.uvs, at, vs, r, r.uvs)
    case Clear =>
      && r.vertices == r.indices == r.colours == r.normals == r.uvs == [] && r.components == {Vertex, Index}
      && r.transform == IDENTITY_TRANSFORM && r.id == 0 && r.tint == WHITE
      && r.drawType == TRIANGLES && r.drawScale == 0.0
  }

  lemma ResizedExtends(s: seq<Element>, n: nat)
    ensures Extends(s, n, Resized(s, n, 0)) && Extends([], n, Zeroes(n))
  {
  }

  lemma OverlaidShows(s: seq<Element>, at: nat, values: seq<Element>)
    ensures Shows(s, at, values, Overlaid(s, at, values))
  {
  }

  lemma VertexCountIsSeen(m: Mesh, n: nat)
    ensures
      var r := WithVertexCount(m, n);
      SameBut(m, r, {Vertices, Colours, Normals, Uvs}) && Extends(m.vertices, n, r.vertices) && Follow(m, n, r)
  {
    ResizedExtends(m.vertices, n);
    ResizedExtends(m.colours, n);
    ResizedExtends(m.normals, n);
    ResizedExtends(m.uvs, n);
  }

  lemma AddVerticesIsSeen(m: Mesh, values: seq<Element>)
    ensures Seen(m, AddVertices(values), Mutated(m, AddVertices(values)))
  {
    VertexCountIsSeen(m, |m.vertices| + |values|);
    assert Appends(m.vertices, values, m.vertices + values);
  }

  lemma IndicesAreSeen(m: Mesh, n: nat, values: seq<Element>)
    ensures Seen(m, SetIndexCount(n), Mutated(m, SetIndexCount(n)))
    ensures Seen(m, AddIndices(values), Mutated(m, AddIndices(values)))
  {
    ResizedExtends(m.indices, n);
    assert m.components + {} == m.components;
    assert Appends(m.indices, values, m.indices + values);
  }

  lemma ComponentsAreSeen(m: Mesh, components: set<Component>)
    ensures Seen(m, SetComponents(components), Mutated(m, SetComponents(components)))
  {
    ResizedExtends([], |m.vertices|);
  }

  lemma OverlaidExtended(s: seq<Element>, n: nat, at: nat, values: seq<Element>)
    ensures
      var r := Overlaid(Resized(s, n, 0), at, values);
      && (forall i :: 0 <= i < n && !(at <= i < at + |values|) ==> r[i] == if i < |s| then s[i] else 0)
      && (forall i :: at <= i < n && i < at + |values| ==> r[i] == values[i - at])
  {
  }

  lemma NormalsAreSeen(m: Mesh, at: nat, values: seq<Element>)
    ensures Seen(m, SetNormals(at, values), Mutated(m, SetNormals(at, values)))
  {
    OverlaidShows(m.normals, at, values);
    OverlaidExtended(m.normals, |m.vertices|, at, values);
  }

  lemma ColoursAreSeen(m: Mesh, at: nat, values: seq<Element>)
    ensures Seen(m, SetColours(at, values), Mutated(m, SetColours(at, values)))
  {
    OverlaidShows(m.colours, at, values);
    OverlaidExtended(m.colours, |m.vertices|, at, values);
  }

  lemma UvsAreSeen(m: Mesh, at: nat, values: seq<Element>)
    ensures Seen(m, SetUvs(at, values), Mutated(m, SetUvs(at, values)))
  {
    OverlaidShows(m.uvs, at, values);
    OverlaidExtended(m.uvs, |m.vertices|, at, values);
  }

  lemma MutatedIsSeen(m: Mesh, mu: Mutator)
    ensures Seen(m, mu, Mutated(m, mu))
  {
    match mu
    case SetComponents(components) => ComponentsAreSeen(m, components);
    case SetVertexCount(n) => VertexCountIsSeen(m, n);
    case AddVertices(values) => AddVerticesIsSeen(m, values);
    case SetIndexCount(n) => IndicesAreSeen(m, n, []);
    case AddIndices(values) => IndicesAreSeen(m, 0, values);
    case SetVertices(at, values) => OverlaidShows(m.vertices, at, values);
    case SetIndices(at, values) => OverlaidShows(m.indices, at, values);
    case SetNormals(at, values) => NormalsAreSeen(m, at, values);
    case SetColours(at, values) => ColoursAreSeen(m, at, values);
    case SetUvs(at, values) => UvsAreSeen(m, at, values);
    case _ =>
  }

  lemma SameStreams(a: seq<Element>, b: seq<Element>)
    requires |a| == |b| && forall i :: 0 <= i < |a| ==> a[i] == b[i]
    ensures a == b
  {
  }

  /** Each of these relations leaves no choice. */
  lemma OneExtends(was: seq<Element>, n: nat, a: seq<Element>, b: seq<Element>)
    requires Extends(was, n, a) && Extends(was, n, b)
    ensures a == b
  {
    SameStreams(a, b);
  }

  lemma OneAppends(was: seq<Element>, values: seq<Element>, a: seq<Element>, b: seq<Element>)
    requires Appends(was, values, a) && Appends(was, values, b)
    ensures a == b
  {
    SameStreams(a, b);
  }

  lemma OneShows(was: seq<Element>, at: nat, values: seq<Element>, a: seq<Element>, b: seq<Element>)
    requires Shows(was, at, values, a) && Shows(was, at, values, b)
    ensures a == b
  {
    SameStreams(a, b);
  }

  lemma OneFollows(m: Mesh, n: nat, r: Mesh, s: Mesh)
    requires Follow(m, n, r) && Follow(m, n, s)
    ensures r.colours == s.colours && r.normals == s.normals && r.uvs == s.uvs
  {
    if Colour in m.components {
      OneExtends(m.colours, n, r.colours, s.colours);
    }
    if Normal in m.components {
      OneExtends(m.normals, n, r.normals, s.normals);
    }
    if Uv in m.components {
      OneExtends(m.uvs, n, r.uvs, s.uvs);
    }
  }

  lemma OneFresh(wanted: bool, was: seq<Element>, n: nat, a: seq<Element>, b: seq<Element>)
    requires Fresh(wanted, was, n, a) && Fresh(wanted, was, n, b)
    ensures a == b
  {
    if wanted && was == [] {
      OneExtends([], n, a, b);
    }
  }

  lemma OneShowsFlagged(m: Mesh, flag: Component, was: seq<Element>, at: nat, values: seq<Element>, r: Mesh,
      a: seq<Element>, s: Mesh, b: seq<Element>)
    requires ShowsFlagged(m, flag, was, at, values, r, a) && ShowsFlagged(m, flag, was, at, values, s, b)
    ensures a == b && r.components == s.components
  {
    if flag !in m.components && m.vertices != [] {
      forall i | 0 <= i < |a|
        ensures a[i] == b[i]
      {
      }
      SameStreams(a, b);
    } else {
      OneShows(was, at, values, a, b);
    }
  }

  /** That says all of it: only one mesh is seen so. */
  lemma SeenIsMutated(m: Mesh, mu: Mutator, r: Mesh)
    requires Seen(m, mu, r)
    ensures r == Mutated(m, mu)
  {
    MutatedIsSeen(m, mu);
    SeenOnce(m, mu, r, Mutated(m, mu));
  }

  lemma SeenOnce(m: Mesh, mu: Mutator, r: Mesh, s: Mesh)
    requires Seen(m, mu, r) && Seen(m, mu, s)
    ensures r == s
  {
    if mu.SetComponents? {
      ComponentsOnce(m, mu.components, r, s);
    } else if mu.SetVertexCount? || mu.AddVertices? || mu.SetVertices? {
      VerticesOnce(m, mu, r, s);
    } else if mu.SetIndexCount? || mu.AddIndices? || mu.SetIndices? {
      IndicesOnce(m, mu, r, s);
    } else if mu.SetNormals? || mu.SetColours? || mu.SetUvs? {
      FlaggedOnce(m, mu, r, s);
    }
  }

  lemma VerticesOnce(m: Mesh, mu: Mutator, r: Mesh, s: Mesh)
    requires mu.SetVertexCount? || mu.AddVertices? || mu.SetVertices?
    requires Seen(m, mu, r) && Seen(m, mu, s)
    ensures r == s
  {
    match mu
    case SetVertexCount(n) =>
      OneExtends(m.vertices, n, r.vertices, s.vertices);
      OneFollows(m, n, r, s);
    case AddVertices(values) =>
      OneAppends(m.vertices, values, r.vertices, s.vertices);
      OneFollows(m, |m.vertices| + |values|, r, s);
    case SetVertices(at, values) => OneShows(m.vertices, at, values, r.vertices, s.vertices);
  }

  lemma IndicesOnce(m: Mesh, mu: Mutator, r: Mesh, s: Mesh)
    requires mu.SetIndexCount? || mu.AddIndices? || mu.SetIndices?
    requires Seen(m, mu, r) && Seen(m, mu, s)
    ensures r == s
  {
    match mu
    case SetIndexCount(n) => OneExtends(m.indices, n, r.indices, s.indices);
    case AddIndices(values) => OneAppends(m.indices, values, r.indices, s.indices);
    case SetIndices(at, values) => OneShows(m.indices, at, values, r.indices, s.indices);
  }

  lemma ComponentsOnce(m: Mesh, cs: set<Component>, r: Mesh, s: Mesh)
    requires Seen(m, SetComponents(cs), r) && Seen(m, SetComponents(cs), s)
    ensures r == s
  {
    OneFresh(Colour in cs, m.colours, |m.vertices|, r.colours, s.colours);
    OneFresh(Normal in cs, m.normals, |m.vertices|, r.normals, s.normals);
    OneFresh(Uv in cs, m.uvs, |m.vertices|, r.uvs, s.uvs);
  }

  lemma FlaggedOnce(m: Mesh, mu: Mutator, r: Mesh, s: Mesh)
    requires mu.SetNormals? || mu.SetColours? || mu.SetUvs?
    requires Seen(m, mu, r) && Seen(m, mu, s)
    ensures r == s
  {
    match mu
    case SetNormals(at, values) => OneShowsFlagged(m, Normal, m.normals, at, values, r, r.normals, s, s.normals);
    case SetColours(at, values) => OneShowsFlagged(m, Colour, m.colours, at, values, r, r.colours, s, s.colours);
    case SetUvs(at, values) => OneShowsFlagged(m, Uv, m.uvs, at, values, r, r.uvs, s, s.uvs);
  }

  lemma AppendsTwice(was: seq<Element>, a: seq<Element>, x: seq<Element>, b: seq<Element>, y: seq<Element>)
    requires Appends(was, a, x) && Appends(x, b, y)
    ensures Appends(was, a + b, y)
  {
    forall i | |was| <= i < |y|
      ensures y[i] == (a + b)[i - |was|]
    {
      if i < |x| {
        assert y[i] == x[i];
      }
    }
  }

  lemma FollowTwice(m: Mesh, n: nat, x: Mesh, k: nat, y: Mesh)
    requires WellMade(m) && |m.vertices| <= n <= k && x.components == m.components && Follow(m, n, x) && Follow(x, k, y)
    ensures Follow(m, k, y)
  {
  }

  /** Adding twice is adding once. */
  lemma AddVerticesTwice(m: Mesh, a: seq<Element>, b: seq<Element>)
    requires WellMade(m)
    ensures Mutated(Mutated(m, AddVertices(a)), AddVertices(b)) == Mutated(m, AddVertices(a + b))
  {
    var once := Mutated(m, AddVertices(a));
    var twice := Mutated(once, AddVertices(b));
    MutatedIsSeen(m, AddVertices(a));
    MutatedIsSeen(once, AddVertices(b));
    AddedTwice(m, a, once, b, twice);
    SeenIsMutated(m, AddVertices(a + b), twice);
  }

  lemma AddedTwice(m: Mesh, a: seq<Element>, once: Mesh, b: seq<Element>, twice: Mesh)
    requires WellMade(m) && Seen(m, AddVertices(a), once) && Seen(once, AddVertices(b), twice)
    ensures Seen(m, AddVertices(a + b), twice)
  {
    AppendsTwice(m.vertices, a, once.vertices, b, twice.vertices);
    FollowTwice(m, |m.vertices| + |a|, once, |m.vertices| + |a| + |b|, twice);
  }

  lemma AddIndicesTwice(m: Mesh, a: seq<Element>, b: seq<Element>)
    ensures Mutated(Mutated(m, AddIndices(a)), AddIndices(b)) == Mutated(m, AddIndices(a + b))
  {
    assert (m.indices + a) + b == m.indices + (a + b);
    if a == [] && b == [] && m.indices == [] {
      assert a + b == [];
    }
  }

  /** Setting the same window again is setting it once, and setting what is there changes no element. */
  lemma SetTwice(m: Mesh, at: nat, a: seq<Element>, b: seq<Element>)
    requires |a| == |b|
    ensures Mutated(Mutated(m, SetVertices(at, a)), SetVertices(at, b)) == Mutated(m, SetVertices(at, b))
    ensures at <= |m.vertices| ==> Mutated(m, SetVertices(at, m.vertices[at..])) == m
  {
    SameStreams(Overlaid(Overlaid(m.vertices, at, a), at, b), Overlaid(m.vertices, at, b));
    if at <= |m.vertices| {
      SameStreams(Overlaid(m.vertices, at, m.vertices[at..]), m.vertices);
    }
  }
}
