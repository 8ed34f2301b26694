/** The lazy vertex iterator of src/rtiterator.c: a stack of geometries still to be
    opened, a stack of point arrays taken out of them, and an index. */
module Iterator {
  import opened PointArrays

  // ---- Geometries ----

  /** A point array whose vertices may be overwritten but which keeps its length. */
  datatype Vertices = Vertices(points: array<Point4D>, hasz: bool, hasm: bool) {
    function Count(): nat { points.Length }
  }

  datatype Geom =
    | Simple(points: Vertices)              // point, line, triangle, circular string
    | Polygon(rings: seq<Vertices>)
    | Collection(geoms: seq<Geom>)          // every multi and compound type

  /** rtgeom_is_empty: a polygon is judged by its first ring alone. */
  predicate IsEmpty(g: Geom) {
    match g
    case Simple(points) => points.Count() < 1
    case Polygon(rings) => |rings| < 1 || rings[0].Count() < 1
    case Collection(geoms) => forall k :: 0 <= k < |geoms| ==> IsEmpty(geoms[k])
  }

  function Weight(g: Geom): nat {
    match g
    case Collection(geoms) => 1 + WeightAll(geoms)
    case _ => 1
  }

  function WeightAll(gs: seq<Geom>): nat {
    if |gs| == 0 then 0 else Weight(gs[0]) + WeightAll(gs[1..])
  }

  // ---- What a traversal should and does visit ----

  /** A vertex is an array and an index into it. */
  datatype Position = Position(pa: Vertices, n: nat)

  function From(pa: Vertices, i: nat): (s: seq<Position>)
    ensures |s| == if i < pa.Count() then pa.Count() - i else 0
  {
    seq(if i < pa.Count() then pa.Count() - i else 0, k requires k >= 0 => Position(pa, i + k))
  }

  /** Every vertex of a list of arrays, left to right. */
  function Positions(arrays: seq<Vertices>): seq<Position> {
    if |arrays| == 0 then [] else From(arrays[0], 0) + Positions(arrays[1..])
  }

  /** All arrays of a geometry, left to right. */
  function Every(g: Geom): seq<Vertices> {
    match g
    case Simple(points) => [points]
    case Polygon(rings) => rings
    case Collection(geoms) => EveryAll(geoms)
  }

  function EveryAll(gs: seq<Geom>): seq<Vertices> {
    if |gs| == 0 then [] else Every(gs[0]) + EveryAll(gs[1..])
  }

  /** The arrays of the parts that are not empty. */
  function Kept(g: Geom): seq<Vertices> {
    if IsEmpty(g) then []
    else
      match g
      case Simple(points) => [points]
      case Polygon(rings) => rings
      case Collection(geoms) => KeptAll(geoms)
  }

  function KeptAll(gs: seq<Geom>): seq<Vertices> {
    if |gs| == 0 then [] else Kept(gs[0]) + KeptAll(gs[1..])
  }

  /** The vertices from index i of the first array on, up to the first array
      that has none. */
  function Run(arrays: seq<Vertices>, i: nat): seq<Position> {
    if |arrays| == 0 || i >= arrays[0].Count() then []
    else From(arrays[0], i) + Run(arrays[1..], 0)
  }

  function Visited(g: Geom): seq<Position> { Run(Kept(g), 0) }

  /** A polygon that counts as empty has no vertex in a later ring either. */
  predicate SkippedAreEmpty(g: Geom) {
    match g
    case Simple(_) => true
    case Polygon(rings) => IsEmpty(g) ==> forall k :: 0 <= k < |rings| ==> rings[k].Count() == 0
    case Collection(geoms) => forall k :: 0 <= k < |geoms| ==> SkippedAreEmpty(geoms[k])
  }

  predicate NoGap(arrays: seq<Vertices>) {
    forall j, k :: 0 <= j < k < |arrays| && arrays[j].Count() == 0 ==> arrays[k].Count() == 0
  }

  predicate NoEmptyRing(g: Geom) {
    match g
    case Simple(_) => true
    case Polygon(rings) => forall k :: 0 <= k < |rings| ==> rings[k].Count() > 0
    case Collection(geoms) => forall k :: 0 <= k < |geoms| ==> NoEmptyRing(geoms[k])
  }

  /** The order of a full traversal: a polygon's rings as they are numbered, a collection's
      members as they are numbered, an array's vertices as they are numbered. */
  lemma {:induction false} EveryInOrder(gs: seq<Geom>, g: Geom, rings: seq<Vertices>, pa: Vertices, i: nat)
    ensures Every(Polygon(rings)) == rings && Every(Simple(pa)) == [pa] && Every(Collection([])) == []
    ensures Every(Collection(gs + [g])) == Every(Collection(gs)) + Every(g)
    ensures Positions(rings + [pa]) == Positions(rings) + From(pa, 0)
    ensures i < pa.Count() ==> From(pa, 0)[i] == Position(pa, i)
    decreases |gs|
  {
    PositionsAppend(rings, [pa]);
    assert [pa][1..] == [];
    assert Positions([pa]) == From(pa, 0) + Positions([]);
    if |gs| == 0 {
      assert gs + [g] == [g] && [g][1..] == [];
      assert EveryAll([g]) == Every(g) + EveryAll([]);
    } else {
      EveryInOrder(gs[1..], g, rings, pa, i);
      assert (gs + [g])[1..] == gs[1..] + [g];
      assert EveryAll(gs + [g]) == Every(gs[0]) + EveryAll(gs[1..] + [g]);
    }
  }

  /** A collection of a point, a polygon of two rings and a collection: five vertices in
      this order. */
  lemma KnownVisit(a: Vertices, b: Vertices, c: Vertices, d: Vertices)
    requires a.Count() == c.Count() == d.Count() == 1 && b.Count() == 2
    ensures Visited(Collection([Simple(a), Polygon([b, c]), Collection([Simple(d)])]))
            == [Position(a, 0), Position(b, 0), Position(b, 1), Position(c, 0), Position(d, 0)]
  {
    var one, two, three := Simple(a), Polygon([b, c]), Collection([Simple(d)]);
    var g := Collection([one, two, three]);
    assert !IsEmpty(one);
    assert !IsEmpty(g.geoms[0]);
    assert [Simple(d)][1..] == [] && KeptAll([Simple(d)]) == [d] + KeptAll([]);
    assert !IsEmpty(three.geoms[0]);
    assert Kept(three) == [d];
    assert g.geoms[1..] == [two, three] && [two, three][1..] == [three] && [three][1..] == [];
    assert KeptAll([three]) == [d] + KeptAll([]);
    assert KeptAll([two, three]) == [b, c] + KeptAll([three]) == [b, c, d];
    assert Kept(g) == KeptAll(g.geoms) == [a] + KeptAll([two, three]) == [a, b, c, d];
    RunOfFour(a, b, c, d);
  }

  lemma RunOfFour(a: Vertices, b: Vertices, c: Vertices, d: Vertices)
    requires a.Count() == c.Count() == d.Count() == 1 && b.Count() == 2
    ensures Run([a, b, c, d], 0) == [Position(a, 0), Position(b, 0), Position(b, 1), Position(c, 0), Position(d, 0)]
  {
    assert [a, b, c, d][1..] == [b, c, d] && [b, c, d][1..] == [c, d] && [c, d][1..] == [d] && [d][1..] == [];
    assert From(a, 0) == [Position(a, 0)] && From(b, 0) == [Position(b, 0), Position(b, 1)];
    assert From(c, 0) == [Position(c, 0)] && From(d, 0) == [Position(d, 0)];
    assert Run([], 0) == [] && Run([d], 0) == [Position(d, 0)];
    assert Run([c, d], 0) == [Position(c, 0)] + Run([d], 0);
    assert Run([b, c, d], 0) == [Position(b, 0), Position(b, 1)] + Run([c, d], 0);
  }

  // ---- When the traversal is complete ----

  lemma {:induction false} PositionsAppend(a: seq<Vertices>, b: seq<Vertices>)
    ensures Positions(a + b) == Positions(a) + Positions(b)
  {
    if |a| == 0 {
      assert a + b == b;
    } else {
      assert (a + b)[1..] == a[1..] + b;
      PositionsAppend(a[1..], b);
    }
  }

  lemma {:induction false} NoPositions(arrays: seq<Vertices>)
    ensures Positions(arrays) == [] <==> forall k :: 0 <= k < |arrays| ==> arrays[k].Count() == 0
  {
    if |arrays| > 0 {
      NoPositions(arrays[1..]);
      assert forall k :: 0 < k < |arrays| ==> arrays[k] == arrays[1..][k - 1];
      assert forall k :: 0 <= k < |arrays| - 1 ==> arrays[1..][k] == arrays[k + 1];
    }
  }

  /** A run reaches every vertex exactly when none stands behind an empty array. */
  lemma {:induction false} RunIsPrefix(arrays: seq<Vertices>)
    ensures Run(arrays, 0) <= Positions(arrays)
    ensures Run(arrays, 0) == Positions(arrays) <==> NoGap(arrays)
  {
    if |arrays| > 0 {
      RunIsPrefix(arrays[1..]);
      assert forall k :: 0 < k < |arrays| ==> arrays[k] == arrays[1..][k - 1];
      assert forall k :: 0 <= k < |arrays| - 1 ==> arrays[1..][k] == arrays[k + 1];
      if arrays[0].Count() == 0 {
        NoPositions(arrays);
      }
    }
  }

  /** Leaving out what counts as empty loses no vertex exactly when SkippedAreEmpty. */
  lemma {:induction false} KeptOfEvery(g: Geom)
    ensures |Positions(Kept(g))| <= |Positions(Every(g))|
    ensures SkippedAreEmpty(g) ==> Positions(Kept(g)) == Positions(Every(g))
    ensures |Positions(Kept(g))| == |Positions(Every(g))| ==> SkippedAreEmpty(g)
    decreases g, 1
  {
    NoPositions(Every(g));
    match g
    case Simple(points) =>
    case Polygon(rings) =>
    case Collection(geoms) =>
      KeptOfEveryAll(geoms);
      if IsEmpty(g) {
        NothingKept(geoms);
      }
  }

  lemma {:induction false} KeptOfEveryAll(gs: seq<Geom>)
    ensures |Positions(KeptAll(gs))| <= |Positions(EveryAll(gs))|
    ensures (forall k :: 0 <= k < |gs| ==> SkippedAreEmpty(gs[k])) ==> Positions(KeptAll(gs)) == Positions(EveryAll(gs))
    ensures |Positions(KeptAll(gs))| == |Positions(EveryAll(gs))| ==> forall k :: 0 <= k < |gs| ==> SkippedAreEmpty(gs[k])
    decreases gs, 0
  {
    if |gs| > 0 {
      KeptOfEvery(gs[0]);
      KeptOfEveryAll(gs[1..]);
      PositionsAppend(Kept(gs[0]), KeptAll(gs[1..]));
      PositionsAppend(Every(gs[0]), EveryAll(gs[1..]));
      assert forall k :: 0 < k < |gs| ==> gs[k] == gs[1..][k - 1];
      assert forall k :: 0 <= k < |gs| - 1 ==> gs[1..][k] == gs[k + 1];
    }
  }

  lemma {:induction false} NothingKept(gs: seq<Geom>)
    requires forall k :: 0 <= k < |gs| ==> IsEmpty(gs[k])
    ensures KeptAll(gs) == []
  {
    if |gs| > 0 {
      NothingKept(gs[1..]);
    }
  }

  /** The traversal is the full left-to-right flattening exactly when every polygon
      that counts as empty has no vertex at all, and no vertex stands behind an
      empty ring of a polygon that does not. */
  lemma VisitsEverything(g: Geom)
    ensures Visited(g) == Positions(Every(g)) <==> SkippedAreEmpty(g) && NoGap(Kept(g))
  {
    RunIsPrefix(Kept(g));
    KeptOfEvery(g);
  }

  lemma {:induction false} NoEmptyRingKept(g: Geom)
    requires NoEmptyRing(g)
    ensures SkippedAreEmpty(g)
    ensures forall k :: 0 <= k < |Kept(g)| ==> Kept(g)[k].Count() > 0
    decreases g, 1
  {
    match g
    case Simple(points) =>
    case Polygon(rings) =>
    case Collection(geoms) => NoEmptyRingKeptAll(geoms);
  }

  lemma {:induction false} NoEmptyRingKeptAll(gs: seq<Geom>)
    requires forall k :: 0 <= k < |gs| ==> NoEmptyRing(gs[k])
    ensures forall k :: 0 <= k < |gs| ==> SkippedAreEmpty(gs[k])
    ensures forall k :: 0 <= k < |KeptAll(gs)| ==> KeptAll(gs)[k].Count() > 0
    decreases gs, 0
  {
    if |gs| > 0 {
      NoEmptyRingKept(gs[0]);
      NoEmptyRingKeptAll(gs[1..]);
      assert forall k :: 0 < k < |gs| ==> gs[k] == gs[1..][k - 1];
    }
  }

  /** Without empty rings nothing is missed. */
  lemma VisitsEveryVertex(g: Geom)
    requires NoEmptyRing(g)
    ensures Visited(g) == Positions(Every(g))
  {
    NoEmptyRingKept(g);
    VisitsEverything(g);
  }

  /** A polygon with an empty hole in the middle: the vertices of the last ring and of
      the geometry behind the polygon are never reached. */
  lemma EmptyHoleStops(shell: Vertices, hole: Vertices, last: Vertices, behind: Vertices)
    requires shell.Count() > 0 && hole.Count() == 0
    ensures Visited(Collection([Polygon([shell, hole, last]), Simple(behind)])) == From(shell, 0)
  {
    var polygon := Polygon([shell, hole, last]);
    var g := Collection([polygon, Simple(behind)]);
    assert !IsEmpty(g.geoms[0]);
    var kept := KeptAll(g.geoms);
    assert kept == Kept(polygon) + KeptAll(g.geoms[1..]);
    assert kept[1..][0] == hole;
    assert Run(kept[1..], 0) == [];
  }

  // ---- The stacks ----

  /** The singly linked stacks of the iterator. */
  datatype List<T> = Nil | Node(item: T, next: List<T>)

  function Elements<T>(l: List<T>): seq<T> {
    match l
    case Nil => []
    case Node(item, next) => [item] + Elements(next)
  }

  function Waiting(l: List<Geom>): seq<Vertices> { KeptAll(Elements(l)) }

  predicate NoneEmpty(l: List<Geom>) {
    l.Node? ==> !IsEmpty(l.item) && NoneEmpty(l.next)
  }

  function ListWeight(l: List<Geom>): nat {
    if l.Nil? then 0 else Weight(l.item) + ListWeight(l.next)
  }

  lemma WaitingNode(g: Geom, l: List<Geom>)
    ensures Waiting(Node(g, l)) == Kept(g) + Waiting(l)
  {
    assert Elements(Node(g, l))[1..] == Elements(l);
  }

  lemma KeptCons(gs: seq<Geom>, k: nat)
    requires k < |gs|
    ensures KeptAll(gs[k..]) == Kept(gs[k]) + KeptAll(gs[k + 1..])
    ensures WeightAll(gs[k..]) == Weight(gs[k]) + WeightAll(gs[k + 1..])
  {
    assert gs[k..][1..] == gs[k + 1..];
  }

  lemma Members(c: Geom)
    requires c.Collection? && !IsEmpty(c)
    ensures Kept(c) == KeptAll(c.geoms) && Weight(c) == 1 + WeightAll(c.geoms)
  {
  }

  lemma NoMembers(gs: seq<Geom>)
    ensures gs[|gs|..] == [] && KeptAll([]) == [] && WeightAll([]) == 0
  {
  }

  lemma RunStep(arrays: seq<Vertices>, i: nat)
    requires |arrays| > 0 && i < arrays[0].Count()
    ensures Run(arrays, i) != [] && Run(arrays, i)[0] == Position(arrays[0], i)
    ensures Run(arrays, i)[1..] == if i + 1 < arrays[0].Count() then Run(arrays, i + 1) else Run(arrays[1..], 0)
  {
    assert From(arrays[0], i)[1..] == From(arrays[0], i + 1);
  }

  lemma RunNothing(i: nat)
    ensures Run([], i) == []
  {
  }

  datatype Outcome = Success | Failure | ReadOnly

  /** p is what the array holds at a position. */
  ghost predicate Holds(v: Position, p: Point4D)
    reads v.pa.points
  {
    v.n < v.pa.Count() && p == v.pa.points[v.n]
  }

  // ---- The iterator ----

  class PointIterator {
    var geoms: List<Geom>
    var pointarrays: List<Vertices>
    var i: nat
    var allowModification: bool

    ghost predicate Valid()
      reads this
    {
      && NoneEmpty(geoms)
      && (pointarrays.Nil? ==> geoms.Nil?)
    }

    /** The vertices still to come. */
    ghost function Pending(): seq<Position>
      reads this
    {
      Run(Elements(pointarrays) + Waiting(geoms), i)
    }

    /** rtpointiterator_create and rtpointiterator_create_rw. */
    constructor Create(g: Geom, rw: bool)
      ensures Valid() && Pending() == Visited(g)
      ensures allowModification == rw
    {
      geoms := Nil;
      pointarrays := Nil;
      i := 0;
      allowModification := rw;
      new;
      assert Waiting(geoms) == [];
      var _ := AddGeomToStack(g);
      assert Waiting(geoms) == Kept(g);
      var _ := Advance();
    }

    method AddGeomToStack(g: Geom) returns (ok: bool)
      requires NoneEmpty(geoms)
      modifies this`geoms
      ensures NoneEmpty(geoms) && ok == !IsEmpty(g)
      ensures Waiting(geoms) == Kept(g) + Waiting(old(geoms))
      ensures ListWeight(geoms) <= Weight(g) + ListWeight(old(geoms))
    {
      if IsEmpty(g) {
        return false;
      }
      WaitingNode(g, geoms);
      geoms := Node(g, geoms);
      return true;
    }

    /** Replaces the collection on top by its members, the first of them on top. */
    method UnrollCollection()
      requires NoneEmpty(geoms)
      requires geoms.Node? ==> geoms.item.Collection?
      modifies this`geoms
      ensures NoneEmpty(geoms) && Waiting(geoms) == Waiting(old(geoms))
      ensures old(geoms).Node? ==> ListWeight(geoms) < ListWeight(old(geoms))
    {
      hide Kept, KeptAll, Weight, WeightAll, Waiting, IsEmpty;
      if geoms.Nil? {
        return;
      }
      var c := geoms.item;
      WaitingNode(c, geoms.next);
      Members(c);
      geoms := geoms.next;
      ghost var below := geoms;
      var k := |c.geoms| - 1;
      NoMembers(c.geoms);
      assert [] + Waiting(below) == Waiting(below);
      while k >= 0
        invariant -1 <= k < |c.geoms|
        invariant NoneEmpty(geoms)
        invariant Waiting(geoms) == KeptAll(c.geoms[k + 1..]) + Waiting(below)
        invariant ListWeight(geoms) <= WeightAll(c.geoms[k + 1..]) + ListWeight(below)
      {
        ghost var behind := KeptAll(c.geoms[k + 1..]);
        var _ := AddGeomToStack(c.geoms[k]);
        KeptCons(c.geoms, k);
        assert Kept(c.geoms[k]) + (behind + Waiting(below)) == (Kept(c.geoms[k]) + behind) + Waiting(below);
        k := k - 1;
      }
      assert c.geoms[0..] == c.geoms;
    }

    method UnrollCollections()
      requires NoneEmpty(geoms)
      modifies this`geoms
      ensures NoneEmpty(geoms) && Waiting(geoms) == Waiting(old(geoms))
      ensures geoms.Node? ==> !geoms.item.Collection?
    {
      while geoms.Node? && geoms.item.Collection?
        invariant NoneEmpty(geoms) && Waiting(geoms) == Waiting(old(geoms))
        decreases ListWeight(geoms)
      {
        UnrollCollection();
      }
    }

    /** The arrays of a geometry that is not a collection, as a stack. */
    method ExtractPointArrays(g: Geom) returns (n: List<Vertices>)
      requires !g.Collection?
      ensures Elements(n) == Every(g)
    {
      if g.Simple? {
        return Node(g.points, Nil);
      }
      n := Nil;
      var k := |g.rings| - 1;
      while k >= 0
        invariant -1 <= k < |g.rings|
        invariant Elements(n) == g.rings[k + 1..]
      {
        n := Node(g.rings[k], n);
        k := k - 1;
      }
    }

    /** Takes the next geometry apart when no array is left. */
    method Refill() returns (ok: bool)
      requires NoneEmpty(geoms)
      modifies this`geoms, this`pointarrays, this`i
      ensures Valid() && ok == pointarrays.Node?
      ensures Elements(pointarrays) + Waiting(geoms) == old(Elements(pointarrays) + Waiting(geoms))
      ensures i == if old(pointarrays).Nil? && ok then 0 else old(i)
    {
      if pointarrays.Nil? {
        ghost var waiting := Waiting(geoms);
        assert Elements(pointarrays) + waiting == waiting;
        UnrollCollections();
        if geoms.Nil? {
          return false;
        }
        i := 0;
        var g := geoms.item;
        pointarrays := ExtractPointArrays(g);
        WaitingNode(g, geoms.next);
        geoms := geoms.next;
        assert Elements(pointarrays) == Kept(g);
      }
      if pointarrays.Nil? {
        return false;
      }
      return true;
    }

    /** From the current vertex to the next one; at the start, to the first one. */
    method Advance() returns (ok: bool)
      requires NoneEmpty(geoms)
      requires pointarrays.Node? ==> i < pointarrays.item.Count()
      modifies this`geoms, this`pointarrays, this`i
      ensures Valid() && ok == pointarrays.Node?
      ensures Pending() == if old(pointarrays).Nil? then Run(old(Waiting(geoms)), 0) else old(Pending())[1..]
    {
      hide Run, NoneEmpty;
      ghost var all := Elements(pointarrays) + Waiting(geoms);
      if pointarrays.Node? {
        RunStep(all, i);
        assert all[1..] == Elements(pointarrays.next) + Waiting(geoms);
      } else {
        assert all == Waiting(geoms);
      }
      i := i + 1;
      if pointarrays.Node? && i >= pointarrays.item.Count() {
        pointarrays := pointarrays.next;
        i := 0;
      }
      RunNothing(0);
      RunNothing(i);
      ok := Refill();
    }

    method HasNext() returns (b: bool)
      requires Valid()
      ensures b == (Pending() != [])
      ensures b ==> pointarrays.Node? && i < pointarrays.item.Count() && Pending()[0] == Position(pointarrays.item, i)
    {
      b := pointarrays.Node? && i < pointarrays.item.Count();
      if b {
        RunStep(Elements(pointarrays) + Waiting(geoms), i);
      }
    }

    method Peek() returns (p: Option<Point4D>)
      requires Valid()
      ensures p.None? <==> Pending() == []
      ensures p.Some? ==> Holds(Pending()[0], p.value)
    {
      var more := HasNext();
      if !more {
        return None;
      }
      return Some(pointarrays.item.points[i]);
    }

    method Next() returns (p: Option<Point4D>)
      requires Valid()
      modifies this`geoms, this`pointarrays, this`i
      ensures Valid()
      ensures p.None? <==> old(Pending()) == []
      ensures p.None? ==> Pending() == []
      ensures p.Some? ==> Pending() == old(Pending())[1..]
      ensures p.Some? ==> Holds(old(Pending())[0], p.value)
    {
      var more := HasNext();
      if !more {
        return None;
      }
      p := Peek();
      var _ := Advance();
    }

    /** Overwrites the current vertex, and nothing else, and moves on. */
    method ModifyNext(p: Point4D) returns (r: Outcome)
      requires Valid()
      modifies this`geoms, this`pointarrays, this`i
      modifies if pointarrays.Node? then {pointarrays.item.points} else {}
      ensures Valid()
      ensures r == if old(Pending()) == [] then Failure else if !allowModification then ReadOnly else Success
      ensures r.Success? ==> Pending() == old(Pending())[1..]
      ensures r.Success? ==> var v := old(Pending())[0];
              v.n < v.pa.Count() && v.pa.points[..] == old(v.pa.points[..])[v.n := Stored(p, v.pa.hasz, v.pa.hasm)]
      ensures !r.Success? ==> Pending() == old(Pending())
      ensures !r.Success? && old(pointarrays).Node? ==> unchanged(old(pointarrays).item.points)
    {
      var more := HasNext();
      if !more {
        return Failure;
      }
      if !allowModification {
        return ReadOnly;
      }
      var pa := pointarrays.item;
      pa.points[i] := Stored(p, pa.hasz, pa.hasm);
      var _ := Advance();
      return Success;
    }
  }

  datatype Option<T> = None | Some(value: T)

  /** Calling rtpointiterator_next until it fails hands out the visited vertices in order. */
  method Drain(g: Geom) returns (points: seq<Point4D>)
    ensures |points| == |Visited(g)|
    ensures forall k :: 0 <= k < |points| ==> Holds(Visited(g)[k], points[k])
  {
    hide Visited, Run;
    var it := new PointIterator.Create(g, false);
    points := [];
    ghost var all := Visited(g);
    var p := it.Next();
    while p.Some?
      invariant it.Valid() && fresh(it)
      invariant if p.Some? then |points| < |all| && it.Pending() == all[|points| + 1..] && Holds(all[|points|], p.value)
                else |points| == |all|
      invariant forall k :: 0 <= k < |points| ==> Holds(all[k], points[k])
      decreases |all| - |points|, p.Some?
    {
      assert allocated(all);
      assert forall k :: 0 <= k < |all| ==> allocated(all[k].pa.points);
      points := points + [p.value];
      p := it.Next();
    }
  }
}
