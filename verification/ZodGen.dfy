/** The zod generator: which component schemas a request body reaches, and in which order to declare them. A name is the
    bytes of a Go string, one character for each byte. */
module ZodGen {
  import opened Wrappers
  import opened Names

  datatype Property = Property(key: string, schema: Schema)

  /** A JSON Schema node, or the nil pointer. The properties are listed by ascending key; `collect`
      visits them in an arbitrary order, which its specification does not depend on. */
  datatype Schema = Nil | Node(ref: string, typ: string, required: seq<string>, properties: seq<Property>, items: Schema)

  type Components = map<string, Schema>

  const REF_PREFIX := "#/components/schemas/"

  function RefName(ref: string): string {
    if REF_PREFIX <= ref then ref[|REF_PREFIX|..] else ""
  }

  function Lookup(components: Components, name: string): Schema {
    if name in components then components[name] else Nil
  }

  // ---- the reference graph ----

  /** The names a node refers to without following a reference. A node with a reference has nothing else. */
  function DirectRefs(s: Schema): set<string> {
    match s
    case Nil => {}
    case Node(ref, _, _, properties, items) =>
      if ref != "" then (if RefName(ref) == "" then {} else {RefName(ref)})
      else PropertyRefs(properties) + DirectRefs(items)
  }

  function PropertyRefs(properties: seq<Property>): set<string> {
    if properties == [] then {} else DirectRefs(properties[0].schema) + PropertyRefs(properties[1..])
  }

  function Deps(c: Components, name: string): set<string> {
    DirectRefs(Lookup(c, name))
  }

  /** b is reached from a by k + 1 references. */
  ghost predicate ReachesIn(c: Components, a: string, b: string, k: nat)
    decreases k
  {
    if k == 0 then b in Deps(c, a)
    else exists m :: m in Deps(c, a) && ReachesIn(c, m, b, k - 1)
  }

  ghost predicate Reaches(c: Components, a: string, b: string) {
    exists k: nat :: ReachesIn(c, a, b, k)
  }

  ghost predicate ReachedFrom(c: Components, s: Schema, n: string) {
    exists d :: d in DirectRefs(s) && (d == n || Reaches(c, d, n))
  }

  ghost predicate IsClosed(c: Components, names: set<string>) {
    forall n :: n in names ==> Deps(c, n) <= names
  }

  lemma {:induction false} ReachesInTransitive(c: Components, a: string, b: string, d: string, i: nat, j: nat)
    requires ReachesIn(c, a, b, i) && ReachesIn(c, b, d, j)
    ensures ReachesIn(c, a, d, i + j + 1)
    decreases i
  {
    hide Deps;
    if i > 0 {
      var m :| m in Deps(c, a) && ReachesIn(c, m, b, i - 1);
      ReachesInTransitive(c, m, b, d, i - 1, j);
    }
  }

  lemma ReachesTransitive(c: Components, a: string, b: string, d: string)
    requires Reaches(c, a, b) && Reaches(c, b, d)
    ensures Reaches(c, a, d)
  {
    var i: nat :| ReachesIn(c, a, b, i);
    var j: nat :| ReachesIn(c, b, d, j);
    ReachesInTransitive(c, a, b, d, i, j);
  }

  lemma DependencyReaches(c: Components, a: string, b: string)
    requires b in Deps(c, a)
    ensures Reaches(c, a, b)
  {
    assert ReachesIn(c, a, b, 0);
  }

  /** What is reached from a component is what is reached from its schema. */
  lemma ReachedFromComponent(c: Components, a: string, b: string)
    ensures Reaches(c, a, b) <==> ReachedFrom(c, Lookup(c, a), b)
  {
    if Reaches(c, a, b) {
      var k: nat :| ReachesIn(c, a, b, k);
      if k > 0 {
        var m :| m in Deps(c, a) && ReachesIn(c, m, b, k - 1);
      }
    }
    if ReachedFrom(c, Lookup(c, a), b) {
      var d :| d in DirectRefs(Lookup(c, a)) && (d == b || Reaches(c, d, b));
      DependencyReaches(c, a, d);
      if d != b {
        ReachesTransitive(c, a, d, b);
      }
    }
  }

  lemma {:induction false} ClosedHoldsReached(c: Components, names: set<string>, a: string, b: string, k: nat)
    requires IsClosed(c, names) && a in names && ReachesIn(c, a, b, k)
    ensures b in names
    decreases k
  {
    hide Deps;
    if k > 0 {
      var m :| m in Deps(c, a) && ReachesIn(c, m, b, k - 1);
      ClosedHoldsReached(c, names, m, b, k - 1);
    }
  }

  lemma ClosedHoldsAll(c: Components, names: set<string>, s: Schema)
    requires IsClosed(c, names) && DirectRefs(s) <= names
    ensures forall n :: ReachedFrom(c, s, n) ==> n in names
  {
    forall n | ReachedFrom(c, s, n) ensures n in names {
      var d :| d in DirectRefs(s) && (d == n || Reaches(c, d, n));
      if d != n {
        var k: nat :| ReachesIn(c, d, n, k);
        ClosedHoldsReached(c, names, d, n, k);
      }
    }
  }

  // ---- collect ----

  function Size(s: Schema): nat {
    match s
    case Nil => 0
    case Node(_, _, _, properties, items) => 1 + PropertiesSize(properties) + Size(items)
  }

  function PropertiesSize(properties: seq<Property>): nat {
    if properties == [] then 0 else Size(properties[0].schema) + PropertiesSize(properties[1..])
  }

  lemma {:induction false} PropertyIsSmaller(properties: seq<Property>, i: nat)
    requires i < |properties|
    ensures Size(properties[i].schema) <= PropertiesSize(properties)
    ensures DirectRefs(properties[i].schema) <= PropertyRefs(properties)
  {
    if i > 0 {
      PropertyIsSmaller(properties[1..], i - 1);
    }
  }

  lemma {:induction false} PropertyRefsIn(properties: seq<Property>, names: set<string>)
    requires forall i :: 0 <= i < |properties| ==> DirectRefs(properties[i].schema) <= names
    ensures PropertyRefs(properties) <= names
  {
    if properties != [] {
      assert forall i :: 0 <= i < |properties| - 1 ==> properties[1..][i] == properties[i + 1];
      PropertyRefsIn(properties[1..], names);
    }
  }

  /** What a depth-first pass leaves behind: everything it needed is recorded, everything it
      recorded has its own references recorded, and it recorded nothing it did not reach. */
  ghost predicate Collected(c: Components, s: Schema, before: set<string>, after: set<string>) {
    DirectRefs(s) <= after && Grown(c, s, before, after)
  }

  ghost predicate Grown(c: Components, s: Schema, before: set<string>, after: set<string>) {
    && before <= after
    && (forall n :: n in after - before ==> Deps(c, n) <= after)
    && (forall n :: n in after - before ==> ReachedFrom(c, s, n))
  }

  /** On a closed set, a pass adds exactly the names reached from the schema and leaves the set closed. */
  lemma CollectedIsReached(c: Components, s: Schema, before: set<string>, after: set<string>)
    requires IsClosed(c, before) && Collected(c, s, before, after)
    ensures IsClosed(c, after)
    ensures forall n :: n in after <==> n in before || ReachedFrom(c, s, n)
  {
    hide Deps, ReachedFrom, DirectRefs;
    forall n | n in after ensures Deps(c, n) <= after {
      if n in before {
        assert Deps(c, n) <= before;
      }
    }
    ClosedHoldsAll(c, after, s);
  }

  /** The map that `collect` fills, shared by all its calls. */
  class NameSet {
    var names: set<string>

    constructor ()
      ensures names == {}
    {
      names := {};
    }
  }

  /** `collect`, for any graph, cyclic or with dangling references, and any set already filled. */
  method Collect(s: Schema, c: Components, out: NameSet)
    modifies out
    ensures Collected(c, s, old(out.names), out.names)
    decreases c.Keys - out.names, Size(s)
  {
    hide ReachedFrom, Reaches, ReachesIn, Grown, Deps;
    assert Grown(c, s, out.names, out.names) by { NothingGrown(c, s, out.names); }
    if s == Nil {
      return;
    }
    if s.ref != "" {
      var name := RefName(s.ref);
      if name == "" || name in out.names {
        return;
      }
      ghost var before := out.names;
      out.names := out.names + {name};
      MeasureFalls(c, before, name, s);
      Collect(Lookup(c, name), c, out);
      FollowedReference(c, s, before, out.names);
      return;
    }
    ghost var before := out.names;
    for i := 0 to |s.properties|
      invariant before <= out.names && Grown(c, s, before, out.names)
      invariant forall k :: 0 <= k < i ==> DirectRefs(s.properties[k].schema) <= out.names
    {
      PropertyIsSmaller(s.properties, i);
      ghost var mid := out.names;
      Collect(s.properties[i].schema, c, out);
      CollectedPart(c, s, s.properties[i].schema, before, mid, out.names);
    }
    PropertyRefsIn(s.properties, out.names);
    ghost var mid := out.names;
    Collect(s.items, c, out);
    CollectedPart(c, s, s.items, before, mid, out.names);
  }

  lemma NothingGrown(c: Components, s: Schema, names: set<string>)
    ensures Grown(c, s, names, names)
  {
  }

  /** Collecting a part of a schema is progress on the schema. */
  lemma CollectedPart(c: Components, s: Schema, part: Schema, before: set<string>, mid: set<string>, after: set<string>)
    requires Grown(c, s, before, mid) && Collected(c, part, mid, after) && DirectRefs(part) <= DirectRefs(s)
    ensures before <= mid <= after && Grown(c, s, before, after)
  {
    hide Deps, ReachedFrom, DirectRefs;
    ReachedThroughPart(c, s, part);
    assert forall n :: n in after - before ==> n in mid - before || n in after - mid;
  }

  lemma MeasureFalls(c: Components, before: set<string>, name: string, s: Schema)
    requires s.Node? && name !in before
    ensures c.Keys - (before + {name}) <= c.Keys - before
    ensures name in c ==> c.Keys - (before + {name}) < c.Keys - before
    ensures name !in c ==> c.Keys - (before + {name}) == c.Keys - before && Size(Lookup(c, name)) < Size(s)
  {
    if name in c {
      assert name in c.Keys - before;
    }
  }

  lemma FollowedReference(c: Components, s: Schema, before: set<string>, after: set<string>)
    requires s.Node? && s.ref != "" && RefName(s.ref) != ""
    requires Collected(c, Lookup(c, RefName(s.ref)), before + {RefName(s.ref)}, after)
    ensures Collected(c, s, before, after)
  {
    var name := RefName(s.ref);
    forall n | n in after - before
      ensures Deps(c, n) <= after && ReachedFrom(c, s, n)
    {
      assert name in DirectRefs(s);
      if n != name {
        assert n in after - (before + {name});
        ReachedFromComponent(c, name, n);
      }
    }
  }

  lemma ReachedThroughPart(c: Components, s: Schema, part: Schema)
    requires DirectRefs(part) <= DirectRefs(s)
    ensures forall n :: ReachedFrom(c, part, n) ==> ReachedFrom(c, s, n)
  {
  }

  // ---- dependency order ----

  ghost function AllRefs(c: Components): set<string> {
    set n, d | n in c && d in Deps(c, n) :: d
  }

  /** The names reached from a component. */
  ghost function DepSet(c: Components, name: string): set<string> {
    set n | n in AllRefs(c) && Reaches(c, name, n)
  }

  lemma {:induction false} ReachedIsReferenced(c: Components, a: string, b: string, k: nat)
    requires ReachesIn(c, a, b, k)
    ensures b in AllRefs(c)
    decreases k
  {
    if k == 0 {
      assert a in c;
    } else {
      var m :| m in Deps(c, a) && ReachesIn(c, m, b, k - 1);
      ReachedIsReferenced(c, m, b, k - 1);
    }
  }

  lemma DepSetIs(c: Components, name: string)
    ensures forall n :: n in DepSet(c, name) <==> Reaches(c, name, n)
  {
    hide Deps, AllRefs;
    forall n | Reaches(c, name, n) ensures n in AllRefs(c) {
      var k: nat :| ReachesIn(c, name, n, k);
      ReachedIsReferenced(c, name, n, k);
    }
  }

  /** emitted marks every name whose visit has begun; order lists those whose visit has ended. */
  datatype Progress = Progress(emitted: set<string>, order: seq<string>)

  ghost function Visited(c: Components, u: set<string>, p: Progress, name: string): (q: Progress)
    requires name in u && AllRefs(c) <= u
    ensures p.emitted <= q.emitted
    decreases u - p.emitted, 0
  {
    if name in p.emitted then p
    else
      assert name in u - p.emitted;
      var deps := Sorted(DepSet(c, name));
      assert forall k :: 0 <= k < |deps| ==> deps[k] in deps;
      var q := VisitAll(c, u, Progress(p.emitted + {name}, p.order), deps);
      Progress(q.emitted, q.order + [name])
  }

  ghost function VisitAll(c: Components, u: set<string>, p: Progress, names: seq<string>): (q: Progress)
    requires AllRefs(c) <= u && forall k :: 0 <= k < |names| ==> names[k] in u
    ensures p.emitted <= q.emitted
    decreases u - p.emitted, 1 + |names|
  {
    if names == [] then p else VisitAll(c, u, Visited(c, u, p, names[0]), names[1..])
  }

  /** The component names in the order of their declarations. */
  ghost function DependencyOrder(c: Components, needed: set<string>): seq<string> {
    VisitAll(c, needed + AllRefs(c), Progress({}, []), Sorted(needed)).order
  }

  /** The two variables that the recursive closure `visit` captures. */
  class Orderer {
    var emitted: set<string>
    var order: seq<string>

    constructor ()
      ensures emitted == {} && order == []
    {
      emitted, order := {}, [];
    }

    method Visit(name: string, c: Components, ghost u: set<string>)
      requires name in u && AllRefs(c) <= u
      modifies this
      ensures Progress(emitted, order) == Visited(c, u, old(Progress(emitted, order)), name)
      decreases u - emitted
    {
      hide Reaches, ReachesIn, AllRefs, DepSet;
      if name in emitted {
        return;
      }
      ghost var before := Progress(emitted, order);
      emitted := emitted + {name};
      ghost var begun := Progress(emitted, order);
      assert name in u - before.emitted;
      var deps := new NameSet();
      Collect(Lookup(c, name), c, deps);
      CollectedDeps(c, name, deps.names);
      var depNames := Sorted(deps.names);
      ghost var all := VisitAll(c, u, begun, depNames);
      for i := 0 to |depNames|
        invariant begun.emitted <= emitted
        invariant all == VisitAll(c, u, Progress(emitted, order), depNames[i..])
      {
        assert depNames[i..][0] == depNames[i] && depNames[i..][1..] == depNames[i + 1..];
        if depNames[i] != name {
          Visit(depNames[i], c, u);
        }
      }
      order := order + [name];
    }
  }

  lemma CollectedDeps(c: Components, name: string, names: set<string>)
    requires Collected(c, Lookup(c, name), {}, names)
    ensures names == DepSet(c, name) <= AllRefs(c)
  {
    hide Deps, ReachedFrom, Reaches, ReachesIn;
    CollectedIsReached(c, Lookup(c, name), {}, names);
    DepSetIs(c, name);
    forall n ensures n in names <==> n in DepSet(c, name) {
      ReachedFromComponent(c, name, n);
    }
  }

  method OrderDependencies(c: Components, needed: set<string>) returns (order: seq<string>)
    ensures order == DependencyOrder(c, needed)
  {
    hide Reaches, ReachesIn, AllRefs, DepSet, VisitAll, Visited;
    var pending := Sorted(needed);
    var visitor := new Orderer();
    ghost var u := needed + AllRefs(c);
    for i := 0 to |pending|
      invariant VisitAll(c, u, Progress(visitor.emitted, visitor.order), pending[i..]) == VisitAll(c, u, Progress({}, []), pending)
    {
      assert pending[i..][0] == pending[i] && pending[i..][1..] == pending[i + 1..];
      VisitNext(c, u, Progress(visitor.emitted, visitor.order), pending[i..]);
      visitor.Visit(pending[i], c, u);
    }
    assert pending[|pending|..] == [];
    VisitedAll(c, u, Progress(visitor.emitted, visitor.order));
    order := visitor.order;
  }

  lemma VisitNext(c: Components, u: set<string>, p: Progress, names: seq<string>)
    requires AllRefs(c) <= u && names != [] && forall k :: 0 <= k < |names| ==> names[k] in u
    ensures VisitAll(c, u, p, names) == VisitAll(c, u, Visited(c, u, p, names[0]), names[1..])
  {
    hide Visited, AllRefs;
  }

  lemma VisitedAll(c: Components, u: set<string>, p: Progress)
    requires AllRefs(c) <= u
    ensures VisitAll(c, u, p, []) == p
  {
  }

  // ---- laws of the order ----

  predicate NoRepeats(order: seq<string>) {
    forall i, j :: 0 <= i < j < |order| ==> order[i] != order[j]
  }

  /** The names whose visit has begun and not ended. */
  function Open(p: Progress): set<string> {
    p.emitted - Members(p.order)
  }

  ghost predicate IsProgress(p: Progress) {
    NoRepeats(p.order) && Members(p.order) <= p.emitted
  }

  /** Everything that x reaches is listed before position i, or reaches x back, or is still open. */
  ghost predicate Settled(c: Components, open: set<string>, order: seq<string>, i: nat)
    requires i < |order|
  {
    forall y :: Reaches(c, order[i], y) && y != order[i] ==>
      y in order[..i] || Reaches(c, y, order[i]) || y in open
  }

  ghost predicate SettledFrom(c: Components, open: set<string>, order: seq<string>, start: nat) {
    forall i :: start <= i < |order| ==> Settled(c, open, order, i)
  }

  /** What one visit adds to the progress. */
  ghost predicate Advances(c: Components, p: Progress, q: Progress) {
    && IsProgress(q)
    && p.order <= q.order && p.emitted <= q.emitted
    && Open(q) == Open(p)
    && SettledFrom(c, Open(p), q.order, |p.order|)
  }

  lemma AdvancesTransitive(c: Components, p: Progress, q: Progress, r: Progress)
    requires Advances(c, p, q) && Advances(c, q, r)
    ensures Advances(c, p, r)
  {
    hide Reaches, Open, IsProgress;
    forall i | |p.order| <= i < |r.order| ensures Settled(c, Open(p), r.order, i) {
      if i < |q.order| {
        assert Settled(c, Open(p), q.order, i);
        assert r.order[..i] == q.order[..i] && r.order[i] == q.order[i];
      }
    }
  }

  lemma {:induction false} VisitAdvances(c: Components, u: set<string>, p: Progress, name: string)
    requires name in u && AllRefs(c) <= u && IsProgress(p)
    ensures var q := Visited(c, u, p, name);
      && Advances(c, p, q) && name in q.emitted
      && forall x :: x in q.emitted - p.emitted ==> x == name || Reaches(c, name, x)
    decreases u - p.emitted, 0
  {
    hide Reaches, ReachesIn, AllRefs, DepSet, Settled;
    if name !in p.emitted {
      assert name in u - p.emitted;
      DepSetIs(c, name);
      assert DepSet(c, name) <= AllRefs(c) by { DepSetIsReferenced(c, name); }
      var begun := Progress(p.emitted + {name}, p.order);
      assert Open(begun) == Open(p) + {name};
      var mid := VisitAll(c, u, begun, Sorted(DepSet(c, name)));
      VisitAllAdvances(c, u, begun, Sorted(DepSet(c, name)));
      forall x | x in mid.emitted - begun.emitted ensures Reaches(c, name, x) {
        var n :| n in Sorted(DepSet(c, name)) && (x == n || Reaches(c, n, x));
        if x != n {
          ReachesTransitive(c, name, n, x);
        }
      }
      VisitEnds(c, p, name, mid);
    }
  }

  lemma DepSetIsReferenced(c: Components, name: string)
    ensures DepSet(c, name) <= AllRefs(c)
  {
  }

  lemma VisitEnds(c: Components, p: Progress, name: string, mid: Progress)
    requires IsProgress(p) && name !in p.emitted
    requires Advances(c, Progress(p.emitted + {name}, p.order), mid)
    requires forall x :: x in mid.emitted - (p.emitted + {name}) ==> Reaches(c, name, x)
    requires forall y :: Reaches(c, name, y) ==> y in mid.emitted
    ensures Advances(c, p, Progress(mid.emitted, mid.order + [name]))
  {
    hide Reaches, Settled;
    var begun := Progress(p.emitted + {name}, p.order);
    var q := Progress(mid.emitted, mid.order + [name]);
    assert Open(begun) == Open(p) + {name};
    assert name in Open(mid);
    assert Members(q.order) == Members(mid.order) + {name};
    forall i | |p.order| <= i < |q.order| ensures Settled(c, Open(p), q.order, i) {
      if i < |mid.order| {
        assert Settled(c, Open(begun), mid.order, i);
        NewlyListed(p, name, mid, i);
        SettledInside(c, Open(p), name, mid.order, i);
      } else {
        SettledAtEnd(c, Open(p), name, mid);
      }
    }
  }

  lemma SettledInside(c: Components, open: set<string>, name: string, order: seq<string>, i: nat)
    requires i < |order| && Settled(c, open + {name}, order, i) && Reaches(c, name, order[i])
    ensures Settled(c, open, order + [name], i)
  {
    hide Reaches;
    assert (order + [name])[..i] == order[..i];
  }

  lemma SettledAtEnd(c: Components, open: set<string>, name: string, mid: Progress)
    requires mid.emitted - Members(mid.order) == open + {name}
    requires forall y :: Reaches(c, name, y) ==> y in mid.emitted
    ensures Settled(c, open, mid.order + [name], |mid.order|)
  {
    hide Reaches;
    assert (mid.order + [name])[..|mid.order|] == mid.order;
    forall y | Reaches(c, name, y) && y != name ensures y in mid.order || y in open {
      assert y in Members(mid.order) || y in mid.emitted - Members(mid.order);
    }
  }

  lemma NewlyListed(p: Progress, name: string, mid: Progress, i: nat)
    requires IsProgress(p) && IsProgress(mid) && p.order <= mid.order && |p.order| <= i < |mid.order|
    requires Open(mid) == Open(p) + {name}
    ensures mid.order[i] in mid.emitted - (p.emitted + {name})
  {
    var x := mid.order[i];
    assert x in Members(mid.order);
    assert forall j :: 0 <= j < |p.order| ==> p.order[j] == mid.order[j] && mid.order[j] != x;
    assert x !in Members(p.order) && x !in Open(mid);
  }

  lemma {:induction false} VisitAllAdvances(c: Components, u: set<string>, p: Progress, names: seq<string>)
    requires AllRefs(c) <= u && IsProgress(p) && forall k :: 0 <= k < |names| ==> names[k] in u
    ensures var q := VisitAll(c, u, p, names);
      && Advances(c, p, q)
      && (forall n :: n in names ==> n in q.emitted)
      && forall x :: x in q.emitted - p.emitted ==> exists n :: n in names && (x == n || Reaches(c, n, x))
    decreases u - p.emitted, 1 + |names|
  {
    hide Reaches, ReachesIn, AllRefs, DepSet, Settled;
    if names != [] {
      var mid := Visited(c, u, p, names[0]);
      VisitAdvances(c, u, p, names[0]);
      VisitAllAdvances(c, u, mid, names[1..]);
      var q := VisitAll(c, u, p, names);
      AdvancesTransitive(c, p, mid, q);
      forall x | x in q.emitted - p.emitted ensures exists n :: n in names && (x == n || Reaches(c, n, x)) {
        if x in mid.emitted {
          assert names[0] in names;
        } else {
          assert x in q.emitted - mid.emitted;
          var n :| n in names[1..] && (x == n || Reaches(c, n, x));
          assert n in names;
        }
      }
    }
  }

  lemma OrderAdvances(c: Components, needed: set<string>)
    ensures NoRepeats(DependencyOrder(c, needed)) && SettledFrom(c, {}, DependencyOrder(c, needed), 0)
    ensures needed <= Members(DependencyOrder(c, needed))
    ensures forall x :: x in DependencyOrder(c, needed) ==> x in needed || exists n :: n in needed && Reaches(c, n, x)
  {
    hide Reaches, AllRefs, Settled;
    var start, names := Progress({}, []), Sorted(needed);
    assert forall k :: 0 <= k < |names| ==> names[k] in names;
    VisitAllAdvances(c, needed + AllRefs(c), start, names);
    var q := VisitAll(c, needed + AllRefs(c), start, names);
    assert Open(start) == {} && q.emitted - Members(q.order) == Open(q) == {};
    assert forall x :: x in q.emitted ==> x in q.emitted - Members(q.order) || x in Members(q.order);
    forall x | x in q.order ensures x in needed || exists n :: n in needed && Reaches(c, n, x) {
      assert x in Members(q.order) && x in q.emitted - start.emitted;
    }
  }

  /** On any graph, the needed names and nothing else are listed, each once. */
  lemma OrderListsEachOnce(c: Components, needed: set<string>)
    requires IsClosed(c, needed)
    ensures NoRepeats(DependencyOrder(c, needed)) && Members(DependencyOrder(c, needed)) == needed
  {
    hide DependencyOrder;
    OrderAdvances(c, needed);
    forall x | x in DependencyOrder(c, needed) ensures x in needed {
      if n :| n in needed && Reaches(c, n, x) {
        var k: nat :| ReachesIn(c, n, x, k);
        ClosedHoldsReached(c, needed, n, x, k);
      }
    }
  }

  /** On any graph, what a component reaches and is not reached back from is listed before it. */
  lemma OrderPrecedence(c: Components, needed: set<string>, i: nat, y: string)
    requires i < |DependencyOrder(c, needed)| && Reaches(c, DependencyOrder(c, needed)[i], y)
    requires !Reaches(c, y, DependencyOrder(c, needed)[i])
    ensures y in DependencyOrder(c, needed)[..i]
  {
    hide DependencyOrder, Reaches;
    OrderAdvances(c, needed);
    assert Settled(c, {}, DependencyOrder(c, needed), i);
  }

  // ---- the order inside a cycle ----

  /** Two names on one cycle, or one name on a cycle. */
  ghost predicate AreMates(c: Components, x: string, y: string) {
    Reaches(c, x, y) && Reaches(c, y, x)
  }

  /** Every smaller mate of the name is emitted. */
  ghost predicate IsReady(c: Components, emitted: set<string>, name: string) {
    forall x :: AreMates(c, x, name) && Less(x, name) ==> x in emitted
  }

  /** Visits begin in ascending order inside a cycle, and end in descending order. */
  ghost predicate Descends(c: Components, p: Progress) {
    && (forall y :: y in p.emitted ==> IsReady(c, p.emitted, y))
    && forall i, y :: 0 <= i < |p.order| && AreMates(c, p.order[i], y) && Less(p.order[i], y) ==> y in p.order[..i]
  }

  /** The names ascend, and a smaller mate of one of them is emitted or among them. */
  ghost predicate ArePending(c: Components, emitted: set<string>, names: seq<string>) {
    && (forall i, j :: 0 <= i < j < |names| ==> Less(names[i], names[j]))
    && forall n, x :: n in names && AreMates(c, x, n) && Less(x, n) ==> x in emitted || x in names
  }

  lemma FirstIsReady(c: Components, emitted: set<string>, names: seq<string>)
    requires names != [] && ArePending(c, emitted, names)
    ensures IsReady(c, emitted, names[0])
  {
    hide AreMates, Less;
    forall x | AreMates(c, x, names[0]) && Less(x, names[0]) ensures x in emitted {
      assert names[0] in names;
      LessIsAsymmetric(x, names[0]);
      LessIsStrict(x);
      assert forall j :: 0 < j < |names| ==> Less(names[0], names[j]);
    }
  }

  lemma RestIsPending(c: Components, before: set<string>, after: set<string>, names: seq<string>)
    requires names != [] && ArePending(c, before, names) && before <= after && names[0] in after
    ensures ArePending(c, after, names[1..])
  {
    hide AreMates, Less;
    forall n, x | n in names[1..] && AreMates(c, x, n) && Less(x, n) ensures x in after || x in names[1..] {
      assert n in names;
      assert x in names ==> x == names[0] || x in names[1..];
    }
  }

  /** The dependencies of a component hold every mate of each of them. */
  lemma DepsArePending(c: Components, emitted: set<string>, name: string)
    ensures ArePending(c, emitted, Sorted(DepSet(c, name)))
  {
    hide Reaches, Less, DepSet;
    DepSetIs(c, name);
    var deps := Sorted(DepSet(c, name));
    forall n, x | n in deps && AreMates(c, x, n) ensures x in deps {
      ReachesTransitive(c, name, n, x);
    }
  }

  lemma NeededArePending(c: Components, needed: set<string>)
    requires IsClosed(c, needed)
    ensures ArePending(c, {}, Sorted(needed))
  {
    hide Less;
    forall n, x | n in Sorted(needed) && AreMates(c, x, n) ensures x in Sorted(needed) {
      var k: nat :| ReachesIn(c, n, x, k);
      ClosedHoldsReached(c, needed, n, x, k);
    }
  }

  lemma {:induction false} VisitDescends(c: Components, u: set<string>, p: Progress, name: string)
    requires name in u && AllRefs(c) <= u && IsProgress(p) && Descends(c, p) && IsReady(c, p.emitted, name)
    ensures Descends(c, Visited(c, u, p, name))
    decreases u - p.emitted, 0
  {
    hide Reaches, ReachesIn, AllRefs, DepSet, Settled, Less, Descends, IsReady;
    if name !in p.emitted {
      assert name in u - p.emitted;
      DepSetIs(c, name);
      assert DepSet(c, name) <= AllRefs(c) by { DepSetIsReferenced(c, name); }
      var deps := Sorted(DepSet(c, name));
      var begun := Progress(p.emitted + {name}, p.order);
      VisitBegins(c, p, name);
      DepsArePending(c, begun.emitted, name);
      VisitAllDescends(c, u, begun, deps);
      VisitAllAdvances(c, u, begun, deps);
      VisitEndsDescending(c, p, name, VisitAll(c, u, begun, deps));
    }
  }

  lemma VisitBegins(c: Components, p: Progress, name: string)
    requires IsProgress(p) && Descends(c, p) && IsReady(c, p.emitted, name)
    ensures IsProgress(Progress(p.emitted + {name}, p.order)) && Descends(c, Progress(p.emitted + {name}, p.order))
  {
    hide AreMates, Less;
  }

  lemma VisitEndsDescending(c: Components, p: Progress, name: string, mid: Progress)
    requires Descends(c, p) && name !in p.emitted && Descends(c, mid)
    requires Open(mid) == Open(Progress(p.emitted + {name}, p.order))
    requires forall y :: Reaches(c, name, y) ==> y in mid.emitted
    ensures Descends(c, Progress(mid.emitted, mid.order + [name]))
  {
    hide Reaches, Less;
    var order := mid.order + [name];
    forall i, y | 0 <= i < |order| && AreMates(c, order[i], y) && Less(order[i], y) ensures y in order[..i] {
      if i < |mid.order| {
        assert order[..i] == mid.order[..i];
      } else {
        assert order[..i] == mid.order;
        assert AreMates(c, name, y) && y != name by { LessIsStrict(name); }
        assert y in p.emitted ==> IsReady(c, p.emitted, y);
        assert y !in p.emitted;
        assert y !in Open(mid);
        assert y in Members(mid.order);
      }
    }
  }

  lemma {:induction false} VisitAllDescends(c: Components, u: set<string>, p: Progress, names: seq<string>)
    requires AllRefs(c) <= u && forall k :: 0 <= k < |names| ==> names[k] in u
    requires IsProgress(p) && Descends(c, p) && ArePending(c, p.emitted, names)
    ensures Descends(c, VisitAll(c, u, p, names))
    decreases u - p.emitted, 1 + |names|
  {
    hide Reaches, ReachesIn, AllRefs, DepSet, Settled, Less, Descends, IsReady, ArePending;
    if names != [] {
      FirstIsReady(c, p.emitted, names);
      VisitDescends(c, u, p, names[0]);
      VisitAdvances(c, u, p, names[0]);
      var mid := Visited(c, u, p, names[0]);
      RestIsPending(c, p.emitted, mid.emitted, names);
      VisitAllDescends(c, u, mid, names[1..]);
    }
  }

  /** Inside a cycle the names are listed in descending order. */
  lemma MatesDescend(c: Components, needed: set<string>, i: nat, y: string)
    requires IsClosed(c, needed) && i < |DependencyOrder(c, needed)|
    requires AreMates(c, DependencyOrder(c, needed)[i], y) && Less(DependencyOrder(c, needed)[i], y)
    ensures y in DependencyOrder(c, needed)[..i]
  {
    hide Reaches, AllRefs, Less, ArePending;
    var names := Sorted(needed);
    assert forall k :: 0 <= k < |names| ==> names[k] in names;
    NeededArePending(c, needed);
    VisitAllDescends(c, needed + AllRefs(c), Progress({}, []), names);
  }

  ghost predicate IsAcyclic(c: Components, names: set<string>) {
    forall n :: n in names ==> !Reaches(c, n, n)
  }

  /** Every component a declaration names is declared earlier. */
  ghost predicate DeclaredBeforeUse(c: Components, order: seq<string>) {
    forall i :: 0 <= i < |order| ==> Deps(c, order[i]) <= Members(order[..i])
  }

  lemma PositionOf(order: seq<string>, i: nat, m: string) returns (j: nat)
    requires i <= |order| && m in order[..i]
    ensures j < i && order[j] == m
  {
    j :| 0 <= j < i && order[..i][j] == m;
  }

  lemma {:induction false} ReachedIsEarlier(c: Components, order: seq<string>, i: nat, y: string, k: nat)
    requires DeclaredBeforeUse(c, order) && i < |order| && ReachesIn(c, order[i], y, k)
    ensures y in order[..i]
    decreases k
  {
    hide Deps;
    if k > 0 {
      var m :| m in Deps(c, order[i]) && ReachesIn(c, m, y, k - 1);
      assert m in Members(order[..i]);
      var j := PositionOf(order, i, m);
      ReachedIsEarlier(c, order, j, y, k - 1);
      var l := PositionOf(order, j, y);
      assert order[..i][l] == y;
    } else {
      assert y in Members(order[..i]);
    }
  }

  /** Declaring before use is possible exactly on acyclic components, and then the order does it. */
  lemma DeclaredBeforeUseIffAcyclic(c: Components, needed: set<string>)
    requires IsClosed(c, needed)
    ensures DeclaredBeforeUse(c, DependencyOrder(c, needed)) <==> IsAcyclic(c, needed)
    ensures (exists order :: NoRepeats(order) && Members(order) == needed && DeclaredBeforeUse(c, order)) <==> IsAcyclic(c, needed)
  {
    hide DependencyOrder, Reaches, Deps;
    var order := DependencyOrder(c, needed);
    OrderListsEachOnce(c, needed);
    if IsAcyclic(c, needed) {
      AcyclicDeclares(c, needed);
    }
    forall other | NoRepeats(other) && Members(other) == needed && DeclaredBeforeUse(c, other) ensures IsAcyclic(c, needed) {
      DeclaringIsAcyclic(c, other);
    }
  }

  lemma AcyclicDeclares(c: Components, needed: set<string>)
    requires IsClosed(c, needed) && IsAcyclic(c, needed)
    ensures DeclaredBeforeUse(c, DependencyOrder(c, needed))
  {
    hide DependencyOrder, Reaches, Deps;
    var order := DependencyOrder(c, needed);
    OrderListsEachOnce(c, needed);
    forall i, d | 0 <= i < |order| && d in Deps(c, order[i]) ensures d in Members(order[..i]) {
      assert order[i] in Members(order);
      DependencyReaches(c, order[i], d);
      if Reaches(c, d, order[i]) {
        ReachesTransitive(c, order[i], d, order[i]);
        assert false;
      }
      OrderPrecedence(c, needed, i, d);
    }
  }

  lemma DeclaringIsAcyclic(c: Components, order: seq<string>)
    requires NoRepeats(order) && DeclaredBeforeUse(c, order)
    ensures IsAcyclic(c, Members(order))
  {
    hide Deps;
    forall n | n in Members(order) ensures !Reaches(c, n, n) {
      var i :| 0 <= i < |order| && order[i] == n;
      if Reaches(c, n, n) {
        var k: nat :| ReachesIn(c, n, n, k);
        ReachedIsEarlier(c, order, i, n, k);
        assert false;
      }
    }
  }

  // ---- the emitted module ----

  /** A zod expression, up to the checks of its leaves. */
  datatype Zod = Const(ident: string) | Object(fields: seq<Field>) | Array(inner: Zod) | Leaf(typ: string)
  datatype Field = Field(key: string, expr: Zod, optional: bool)

  datatype Error = NilSchema | UnsupportedRef | DanglingRef | NoType | UnsupportedType

  const LEAF_TYPES := ["string", "integer", "number", "boolean"]

  /** The UTF-8 bytes of U+FFFD, which stands for a byte that is no text. */
  const REPLACEMENT := "\U{EF}\U{BF}\U{BD}"

  /** strings.ToLower of one byte: the first byte of a longer character is no text of its own. */
  function LowerByte(b: char): string {
    if 'A' <= b <= 'Z' then [(b as int + 32) as char] else if b < '\U{80}' then [b] else REPLACEMENT
  }

  function LowerFirst(s: string): string {
    if s == "" then s else LowerByte(s[0]) + s[1..]
  }

  function ConstName(name: string): string {
    LowerFirst(name) + "Schema"
  }

  function ZodOf(s: Schema, c: Components): Result<Zod, Error> {
    match s
    case Nil => Err(NilSchema)
    case Node(ref, typ, required, properties, items) =>
      if ref != "" then
        if RefName(ref) == "" then Err(UnsupportedRef)
        else if RefName(ref) !in c then Err(DanglingRef)
        else Ok(Const(ConstName(RefName(ref))))
      else if typ == "object" then
        match ZodFields(properties, required, c)
        case Err(e) => Err(e)
        case Ok(fields) => Ok(Object(fields))
      else if typ == "array" then
        match ZodOf(items, c)
        case Err(e) => Err(e)
        case Ok(inner) => Ok(Array(inner))
      else if typ in LEAF_TYPES then Ok(Leaf(typ))
      else if typ == "" then Err(NoType)
      else Err(UnsupportedType)
  }

  function ZodFields(properties: seq<Property>, required: seq<string>, c: Components): Result<seq<Field>, Error> {
    if properties == [] then Ok([])
    else match ZodOf(properties[0].schema, c)
      case Err(e) => Err(e)
      case Ok(expr) =>
        match ZodFields(properties[1..], required, c)
        case Err(e) => Err(e)
        case Ok(rest) => Ok([Field(properties[0].key, expr, properties[0].key !in required)] + rest)
  }

  /** The identifiers an expression uses. */
  function Used(z: Zod): set<string> {
    match z
    case Const(ident) => {ident}
    case Object(fields) => UsedInFields(fields)
    case Array(inner) => Used(inner)
    case Leaf(_) => {}
  }

  function UsedInFields(fields: seq<Field>): set<string> {
    if fields == [] then {} else Used(fields[0].expr) + UsedInFields(fields[1..])
  }

  function ConstNames(names: set<string>): set<string> {
    set n | n in names :: ConstName(n)
  }

  /** The references that an expression renders: those of a string or a number schema are collected and never
      rendered. */
  function Rendered(s: Schema): set<string> {
    match s
    case Nil => {}
    case Node(ref, typ, _, properties, items) =>
      if ref != "" then (if RefName(ref) == "" then {} else {RefName(ref)})
      else if typ == "object" then RenderedIn(properties)
      else if typ == "array" then Rendered(items)
      else {}
  }

  function RenderedIn(properties: seq<Property>): set<string> {
    if properties == [] then {} else Rendered(properties[0].schema) + RenderedIn(properties[1..])
  }

  lemma {:induction false} RenderedAreReferences(s: Schema)
    ensures Rendered(s) <= DirectRefs(s)
    decreases s
  {
    hide RefName;
    if s.Node? && s.ref == "" {
      if s.typ == "object" {
        RenderedInProperties(s.properties);
      } else if s.typ == "array" {
        RenderedAreReferences(s.items);
      }
    }
  }

  lemma {:induction false} RenderedInProperties(properties: seq<Property>)
    ensures RenderedIn(properties) <= PropertyRefs(properties)
    decreases properties
  {
    hide Rendered, DirectRefs;
    if properties != [] {
      RenderedAreReferences(properties[0].schema);
      RenderedInProperties(properties[1..]);
    }
  }

  /** An expression uses the constants of the references it renders, and no other identifier. */
  lemma {:induction false} UsedAreRendered(s: Schema, c: Components)
    requires ZodOf(s, c).Ok?
    ensures Used(ZodOf(s, c).value) == ConstNames(Rendered(s))
    decreases s
  {
    hide ConstName, RefName;
    if s.ref == "" {
      if s.typ == "object" {
        FieldsAreRendered(s.properties, s.required, c);
      } else if s.typ == "array" {
        UsedAreRendered(s.items, c);
      }
    }
  }

  lemma {:induction false} FieldsAreRendered(properties: seq<Property>, required: seq<string>, c: Components)
    requires ZodFields(properties, required, c).Ok?
    ensures UsedInFields(ZodFields(properties, required, c).value) == ConstNames(RenderedIn(properties))
    decreases properties
  {
    hide ConstName, ZodOf, DirectRefs, Used, Rendered;
    if properties != [] {
      UsedAreRendered(properties[0].schema, c);
      FieldsAreRendered(properties[1..], required, c);
      var fields := ZodFields(properties, required, c).value;
      assert fields[1..] == ZodFields(properties[1..], required, c).value;
      ConstNamesOfUnion(Rendered(properties[0].schema), RenderedIn(properties[1..]));
    }
  }

  lemma ConstNamesOfUnion(a: set<string>, b: set<string>)
    ensures ConstNames(a + b) == ConstNames(a) + ConstNames(b)
  {
    hide ConstName;
  }

  /** A rendered reference that lies on a cycle goes to a greater name. */
  ghost predicate CyclesAscend(c: Components, names: set<string>) {
    forall n, y :: n in names && y in Rendered(Lookup(c, n)) && Reaches(c, y, n) ==> Less(n, y)
  }

  lemma AcyclicAscends(c: Components, names: set<string>)
    requires IsAcyclic(c, names)
    ensures CyclesAscend(c, names)
  {
    hide Reaches, Rendered, DirectRefs, Less;
    forall n, y | n in names && y in Rendered(Lookup(c, n)) ensures !Reaches(c, y, n) {
      RenderedAreReferences(Lookup(c, n));
      DependencyReaches(c, n, y);
      if Reaches(c, y, n) {
        ReachesTransitive(c, n, y, n);
        assert false;
      }
    }
  }

  /** Every component that a declaration renders is declared earlier. */
  ghost predicate RenderedEarlier(c: Components, order: seq<string>) {
    forall i :: 0 <= i < |order| ==> Rendered(Lookup(c, order[i])) <= Members(order[..i])
  }

  /** Every rendered component is declared earlier if and only if the rendered references on cycles ascend. */
  lemma RenderedEarlierIff(c: Components, needed: set<string>)
    requires IsClosed(c, needed)
    ensures RenderedEarlier(c, DependencyOrder(c, needed)) <==> CyclesAscend(c, needed)
  {
    hide DependencyOrder, Reaches, Rendered, Less;
    if CyclesAscend(c, needed) {
      AscendingIsEarlier(c, needed);
    }
    if RenderedEarlier(c, DependencyOrder(c, needed)) {
      EarlierAscends(c, needed);
    }
  }

  lemma AscendingIsEarlier(c: Components, needed: set<string>)
    requires IsClosed(c, needed) && CyclesAscend(c, needed)
    ensures RenderedEarlier(c, DependencyOrder(c, needed))
  {
    hide DependencyOrder, Reaches, Rendered, DirectRefs, Less;
    var order := DependencyOrder(c, needed);
    OrderListsEachOnce(c, needed);
    forall i, y | 0 <= i < |order| && y in Rendered(Lookup(c, order[i])) ensures y in Members(order[..i]) {
      assert order[i] in Members(order);
      RenderedAreReferences(Lookup(c, order[i]));
      DependencyReaches(c, order[i], y);
      if Reaches(c, y, order[i]) {
        MatesDescend(c, needed, i, y);
      } else {
        OrderPrecedence(c, needed, i, y);
      }
    }
  }

  lemma EarlierAscends(c: Components, needed: set<string>)
    requires IsClosed(c, needed) && RenderedEarlier(c, DependencyOrder(c, needed))
    ensures CyclesAscend(c, needed)
  {
    hide DependencyOrder, Reaches, Rendered, DirectRefs, Less;
    var order := DependencyOrder(c, needed);
    OrderListsEachOnce(c, needed);
    forall n, y | n in needed && y in Rendered(Lookup(c, n)) && Reaches(c, y, n) ensures Less(n, y) {
      assert n in Members(order);
      var i :| 0 <= i < |order| && order[i] == n;
      RenderedAreReferences(Lookup(c, n));
      DependencyReaches(c, n, y);
      assert y in Members(order[..i]);
      var j :| 0 <= j < i && order[j] == y;
      LessIsTotal(n, y);
      if Less(y, n) {
        MatesDescend(c, needed, j, n);
        assert false;
      }
    }
  }

  // ---- what an expression accepts ----

  /** A JSON value; a fraction is a number that is not whole. */
  datatype Value =
    | Null | Bool(b: bool) | Whole(n: int) | Fraction(r: real) | Text(text: string)
    | List(items: seq<Value>) | Record(members: map<string, Value>)

  /** Which values each name stands for. */
  type Meaning = iset<(string, Value)>

  predicate HasType(typ: string, v: Value) {
    match v
    case Bool(_) => typ == "boolean"
    case Whole(_) => typ == "integer" || typ == "number"
    case Fraction(_) => typ == "number"
    case Text(_) => typ == "string"
    case _ => false
  }

  /** A value conforms to a schema: a reference means its component, an object has its required members and each declared
      member conforms, an array has conforming items, and every other value has the type. */
  ghost predicate Conforms(s: Schema, v: Value, env: Meaning)
    decreases s
  {
    match s
    case Nil => false
    case Node(ref, typ, required, properties, items) =>
      if ref != "" then (RefName(ref), v) in env
      else if v.Record? then
        && typ == "object"
        && (forall k :: k in required ==> k in v.members)
        && forall i :: 0 <= i < |properties| && properties[i].key in v.members ==>
             Conforms(properties[i].schema, v.members[properties[i].key], env)
      else if v.List? then typ == "array" && forall i :: 0 <= i < |v.items| ==> Conforms(items, v.items[i], env)
      else HasType(typ, v)
  }

  /** What zod accepts: an absent member only under an optional key, and members beside the keys without a look. */
  ghost predicate Accepts(z: Zod, v: Value, env: Meaning)
    decreases z
  {
    match z
    case Const(ident) => (ident, v) in env
    case Object(fields) =>
      v.Record? && forall i :: 0 <= i < |fields| ==>
        if fields[i].key in v.members then Accepts(fields[i].expr, v.members[fields[i].key], env) else fields[i].optional
    case Array(inner) => v.List? && forall i :: 0 <= i < |v.items| ==> Accepts(inner, v.items[i], env)
    case Leaf(typ) => HasType(typ, v)
  }

  /** Every required key is the key of a property, in each object that is rendered. */
  predicate DeclaresRequired(s: Schema)
    decreases s
  {
    match s
    case Nil => true
    case Node(ref, typ, required, properties, items) =>
      if ref != "" then true
      else if typ == "object" then
        && (forall k :: k in required ==> exists i :: 0 <= i < |properties| && properties[i].key == k)
        && forall i :: 0 <= i < |properties| ==> DeclaresRequired(properties[i].schema)
      else if typ == "array" then DeclaresRequired(items)
      else true
  }

  /** The constants mean their components. */
  ghost predicate Interprets(c: Components, env: Meaning, idents: Meaning) {
    forall n, v :: n in c ==> ((n, v) in env <==> (ConstName(n), v) in idents)
  }

  lemma {:induction false} FieldsMirror(properties: seq<Property>, required: seq<string>, c: Components, i: nat)
    requires ZodFields(properties, required, c).Ok? && i < |properties|
    ensures |ZodFields(properties, required, c).value| == |properties|
    ensures var f, p := ZodFields(properties, required, c).value[i], properties[i];
      f.key == p.key && (f.optional <==> p.key !in required) && ZodOf(p.schema, c) == Ok(f.expr)
    decreases |properties|
  {
    hide ZodOf;
    if |properties| > 1 {
      FieldsMirror(properties[1..], required, c, if i > 0 then i - 1 else 0);
    }
  }

  lemma FieldsLength(properties: seq<Property>, required: seq<string>, c: Components)
    requires ZodFields(properties, required, c).Ok?
    ensures |ZodFields(properties, required, c).value| == |properties|
  {
    if properties != [] {
      FieldsMirror(properties, required, c, 0);
    }
  }

  /** Every value that conforms to a schema is accepted by its expression. The converse holds for schemas that declare
      each required member: the expression looks at declared members only. */
  lemma {:induction false} AcceptsConforming(s: Schema, c: Components, v: Value, env: Meaning, idents: Meaning)
    requires ZodOf(s, c).Ok? && Interprets(c, env, idents)
    ensures Conforms(s, v, env) ==> Accepts(ZodOf(s, c).value, v, idents)
    ensures DeclaresRequired(s) ==> (Accepts(ZodOf(s, c).value, v, idents) <==> Conforms(s, v, env))
    decreases s
  {
    hide ConstName, HasType, RefName;
    if s.ref == "" {
      if s.typ == "object" {
        AcceptsObject(s, c, v, env, idents);
      } else if s.typ == "array" {
        AcceptsArray(s, c, v, env, idents);
      } else {
        LeafValues(s.typ, v);
      }
    }
  }

  lemma LeafValues(typ: string, v: Value)
    ensures v.Record? || v.List? ==> !HasType(typ, v)
    ensures typ == "object" || typ == "array" ==> !HasType(typ, v)
  {
  }

  lemma {:induction false} AcceptsArray(s: Schema, c: Components, v: Value, env: Meaning, idents: Meaning)
    requires s.Node? && s.ref == "" && s.typ == "array" && ZodOf(s, c).Ok? && Interprets(c, env, idents)
    ensures Conforms(s, v, env) ==> Accepts(ZodOf(s, c).value, v, idents)
    ensures DeclaresRequired(s) ==> (Accepts(ZodOf(s, c).value, v, idents) <==> Conforms(s, v, env))
    decreases s, 0
  {
    hide ConstName, HasType, RefName, Interprets;
    LeafValues("array", v);
    if v.List? {
      forall i | 0 <= i < |v.items|
        ensures Conforms(s.items, v.items[i], env) ==> Accepts(ZodOf(s.items, c).value, v.items[i], idents)
        ensures DeclaresRequired(s.items) ==>
          (Accepts(ZodOf(s.items, c).value, v.items[i], idents) <==> Conforms(s.items, v.items[i], env))
      {
        AcceptsConforming(s.items, c, v.items[i], env, idents);
      }
    }
  }

  lemma {:induction false} AcceptsObject(s: Schema, c: Components, v: Value, env: Meaning, idents: Meaning)
    requires s.Node? && s.ref == "" && s.typ == "object" && ZodOf(s, c).Ok? && Interprets(c, env, idents)
    ensures Conforms(s, v, env) ==> Accepts(ZodOf(s, c).value, v, idents)
    ensures DeclaresRequired(s) ==> (Accepts(ZodOf(s, c).value, v, idents) <==> Conforms(s, v, env))
    decreases s, 0
  {
    hide ConstName, HasType, RefName, Interprets;
    LeafValues("object", v);
    if v.Record? {
      var fields := ZodFields(s.properties, s.required, c).value;
      FieldsLength(s.properties, s.required, c);
      forall i | 0 <= i < |s.properties|
        ensures fields[i].key == s.properties[i].key && (fields[i].optional <==> s.properties[i].key !in s.required)
        ensures s.properties[i].key in v.members ==>
          var w := v.members[s.properties[i].key];
          && (Conforms(s.properties[i].schema, w, env) ==> Accepts(fields[i].expr, w, idents))
          && (DeclaresRequired(s.properties[i].schema) ==>
               (Accepts(fields[i].expr, w, idents) <==> Conforms(s.properties[i].schema, w, env)))
      {
        FieldsMirror(s.properties, s.required, c, i);
        if s.properties[i].key in v.members {
          AcceptsConforming(s.properties[i].schema, c, v.members[s.properties[i].key], env, idents);
        }
      }
    }
  }

  /** No object that is rendered lists a key twice: the source keeps properties in a map. */
  predicate DistinctKeys(s: Schema)
    decreases s
  {
    match s
    case Nil => true
    case Node(ref, typ, required, properties, items) =>
      if ref != "" then true
      else if typ == "object" then
        && (forall i, j :: 0 <= i < j < |properties| ==> properties[i].key != properties[j].key)
        && forall i :: 0 <= i < |properties| ==> DistinctKeys(properties[i].schema)
      else if typ == "array" then DistinctKeys(items)
      else true
  }

  /** A value with every declared member and with nothing else. */
  function Sample(s: Schema): Value {
    match s
    case Nil => Null
    case Node(ref, typ, _, properties, items) =>
      if ref != "" then Null
      else if typ == "object" then Record(SampleMembers(properties))
      else if typ == "array" then List([Sample(items)])
      else if typ == "string" then Text("")
      else if typ == "boolean" then Bool(false)
      else Whole(0)
  }

  function SampleMembers(properties: seq<Property>): map<string, Value> {
    if properties == [] then map[]
    else SampleMembers(properties[1..])[properties[0].key := Sample(properties[0].schema)]
  }

  lemma {:induction false} SampleHas(properties: seq<Property>, k: string)
    ensures k in SampleMembers(properties) <==> exists i :: 0 <= i < |properties| && properties[i].key == k
    decreases |properties|
  {
    hide Sample;
    if properties != [] {
      SampleHas(properties[1..], k);
      if exists i :: 0 <= i < |properties[1..]| && properties[1..][i].key == k {
        var i :| 0 <= i < |properties[1..]| && properties[1..][i].key == k;
        assert properties[i + 1].key == k;
      }
      if exists i :: 0 <= i < |properties| && properties[i].key == k && properties[0].key != k {
        var i :| 0 <= i < |properties| && properties[i].key == k;
        assert properties[1..][i - 1].key == k;
      }
    }
  }

  lemma {:induction false} SampleMember(properties: seq<Property>, i: nat)
    requires i < |properties|
    requires forall i, j :: 0 <= i < j < |properties| ==> properties[i].key != properties[j].key
    ensures properties[i].key in SampleMembers(properties)
    ensures SampleMembers(properties)[properties[i].key] == Sample(properties[i].schema)
    decreases |properties|
  {
    hide Sample;
    if i > 0 {
      assert properties[1..][i - 1] == properties[i];
      SampleMember(properties[1..], i - 1);
    }
  }

  /** Every name stands for every value. */
  ghost function Everything(): Meaning
    ensures forall p :: p in Everything()
  {
    iset p: (string, Value) | |p.0| >= 0
  }

  /** The sample is accepted wherever references accept everything, and it conforms to the schema if and only if the
      schema declares each required member. */
  lemma {:induction false} SampleDecides(s: Schema, c: Components)
    requires ZodOf(s, c).Ok? && DistinctKeys(s)
    ensures Accepts(ZodOf(s, c).value, Sample(s), Everything())
    ensures Conforms(s, Sample(s), Everything()) <==> DeclaresRequired(s)
    decreases s
  {
    hide ConstName, RefName;
    if s.ref == "" {
      if s.typ == "object" {
        SampleObject(s, c);
      } else if s.typ == "array" {
        SampleDecides(s.items, c);
        assert Sample(s).items[0] == Sample(s.items);
      }
    }
  }

  lemma {:induction false} SampleObject(s: Schema, c: Components)
    requires s.Node? && s.ref == "" && s.typ == "object" && ZodOf(s, c).Ok? && DistinctKeys(s)
    ensures Accepts(ZodOf(s, c).value, Sample(s), Everything())
    ensures Conforms(s, Sample(s), Everything()) <==> DeclaresRequired(s)
    decreases s, 0
  {
    hide ConstName, RefName, SampleMembers, ZodFields, Everything;
    var fields, members := ZodFields(s.properties, s.required, c).value, SampleMembers(s.properties);
    FieldsLength(s.properties, s.required, c);
    forall i | 0 <= i < |s.properties|
      ensures fields[i].key == s.properties[i].key && fields[i].key in members
      ensures Accepts(fields[i].expr, members[fields[i].key], Everything())
      ensures Conforms(s.properties[i].schema, members[fields[i].key], Everything()) <==>
        DeclaresRequired(s.properties[i].schema)
    {
      FieldsMirror(s.properties, s.required, c, i);
      SampleMember(s.properties, i);
      SampleDecides(s.properties[i].schema, c);
    }
    forall k | k in s.required
      ensures k in members <==> exists i :: 0 <= i < |s.properties| && s.properties[i].key == k
    {
      SampleHas(s.properties, k);
    }
  }

  /** An expression accepts exactly the conforming values, whatever the references mean, if and only if each required
      member is declared. The generator drops the name of a required member that has no property. */
  lemma AcceptsExactlyIff(s: Schema, c: Components)
    requires ZodOf(s, c).Ok? && DistinctKeys(s)
    ensures DeclaresRequired(s) <==> forall v, env, idents :: Interprets(c, env, idents) ==>
              (Accepts(ZodOf(s, c).value, v, idents) <==> Conforms(s, v, env))
  {
    hide Interprets, DeclaresRequired, ZodOf, Accepts, Conforms, DistinctKeys, Sample;
    forall v, env, idents | Interprets(c, env, idents)
      ensures DeclaresRequired(s) ==> (Accepts(ZodOf(s, c).value, v, idents) <==> Conforms(s, v, env))
    {
      AcceptsConforming(s, c, v, env, idents);
    }
    SampleDecides(s, c);
    AllInterprets(c);
  }

  lemma AllInterprets(c: Components)
    ensures Interprets(c, Everything(), Everything())
  {
  }

  /** What the generator can render: nested objects and arrays over the four leaf types and over references to
      components. */
  predicate IsRenderable(s: Schema, c: Components)
    decreases s
  {
    s.Node? &&
    if s.ref != "" then exists n :: n in c && n != "" && s.ref == "#/components/schemas/" + n
    else match s.typ
      case "object" => forall i :: 0 <= i < |s.properties| ==> IsRenderable(s.properties[i].schema, c)
      case "array" => IsRenderable(s.items, c)
      case t => t == "string" || t == "integer" || t == "number" || t == "boolean"
  }

  lemma {:induction false} RendersIff(s: Schema, c: Components)
    ensures ZodOf(s, c).Ok? <==> IsRenderable(s, c)
    decreases s
  {
    hide ConstName;
    if s.Node? {
      if s.ref != "" {
        RefNameIs(s.ref);
      } else if s.typ == "object" {
        FieldsRenderIff(s.properties, s.required, c);
      } else if s.typ == "array" {
        RendersIff(s.items, c);
      }
    }
  }

  lemma {:induction false} FieldsRenderIff(properties: seq<Property>, required: seq<string>, c: Components)
    ensures ZodFields(properties, required, c).Ok? <==>
      forall i :: 0 <= i < |properties| ==> IsRenderable(properties[i].schema, c)
    decreases properties
  {
    hide ZodOf, IsRenderable;
    if properties != [] {
      RendersIff(properties[0].schema, c);
      FieldsRenderIff(properties[1..], required, c);
      forall i | 1 <= i < |properties| ensures properties[i] == properties[1..][i - 1] {
      }
    }
  }

  /** Why a single node is refused. */
  lemma RefusedFor(s: Schema, c: Components, n: string)
    ensures s == Nil ==> ZodOf(s, c) == Err(NilSchema)
    ensures s.Node? && s.ref != "" && !("#/components/schemas/" < s.ref) ==> ZodOf(s, c) == Err(UnsupportedRef)
    ensures s.Node? && n != "" && n !in c && s.ref == "#/components/schemas/" + n ==> ZodOf(s, c) == Err(DanglingRef)
    ensures s.Node? && s.ref == "" && s.typ == "" ==> ZodOf(s, c) == Err(NoType)
    ensures s.Node? && s.ref == "" && s.typ !in {"", "object", "array", "string", "integer", "number", "boolean"} ==>
      ZodOf(s, c) == Err(UnsupportedType)
    ensures s.Node? && s.ref == "" && s.typ == "array" && ZodOf(s.items, c).Err? ==>
      ZodOf(s, c) == Err(ZodOf(s.items, c).error)
  {
    hide ConstName;
    if s.Node? {
      RefNameIs(s.ref);
    }
  }

  /** An object is refused for its first property that is. */
  lemma {:induction false} FirstRefused(properties: seq<Property>, required: seq<string>, c: Components, i: nat)
    requires i < |properties| && ZodOf(properties[i].schema, c).Err?
    requires forall j :: 0 <= j < i ==> ZodOf(properties[j].schema, c).Ok?
    ensures ZodFields(properties, required, c) == Err(ZodOf(properties[i].schema, c).error)
    decreases |properties|
  {
    hide ZodOf;
    if i > 0 {
      FirstRefused(properties[1..], required, c, i - 1);
    }
  }

  /** What the four leaf types take in. */
  lemma LeafAccepts(v: Value, env: Meaning)
    ensures Accepts(Leaf("string"), v, env) <==> exists text :: v == Text(text)
    ensures Accepts(Leaf("boolean"), v, env) <==> v in {Bool(true), Bool(false)}
    ensures Accepts(Leaf("integer"), v, env) <==> exists n :: v == Whole(n)
    ensures Accepts(Leaf("number"), v, env) <==> (exists n :: v == Whole(n)) || exists r :: v == Fraction(r)
  {
  }

  /** A component's constant is its name with the first letter in lower case and `Schema` behind it. */
  lemma ConstNameOf(b: char, tail: string)
    ensures 'A' <= b <= 'Z' ==> ConstName([b] + tail) == [b - 'A' + 'a'] + tail + "Schema"
    ensures b < '\U{80}' && !('A' <= b <= 'Z') ==> ConstName([b] + tail) == [b] + tail + "Schema"
    ensures b >= '\U{80}' ==> ConstName([b] + tail) == "\U{EF}\U{BF}\U{BD}" + tail + "Schema"
    ensures ConstName("") == "Schema"
  {
    assert ([b] + tail)[1..] == tail;
  }

  /** A reference names a component behind a fixed prefix. */
  lemma RefNameIs(ref: string)
    ensures forall n :: ref == "#/components/schemas/" + n ==> RefName(ref) == n
    ensures RefName(ref) != "" ==> ref == "#/components/schemas/" + RefName(ref)
  {
  }

  datatype Body = Body(op: string, schema: Schema)

  /** One `export const` of the module. */
  datatype Decl = Decl(ident: string, expr: Zod)

  /** The component names the bodies reach. */
  ghost predicate IsNeeded(c: Components, bodies: seq<Body>, needed: set<string>) {
    forall n :: n in needed <==> exists i :: 0 <= i < |bodies| && ReachedFrom(c, bodies[i].schema, n)
  }

  function ComponentDecls(order: seq<string>, c: Components): Result<seq<Decl>, Error> {
    if order == [] then Ok([])
    else
      var last := order[|order| - 1];
      match ComponentDecls(order[..|order| - 1], c)
      case Err(e) => Err(e)
      case Ok(before) =>
        match ZodOf(Lookup(c, last), c)
        case Err(e) => Err(e)
        case Ok(expr) => Ok(before + [Decl(ConstName(last), expr)])
  }

  function BodyDecls(bodies: seq<Body>, c: Components): Result<seq<Decl>, Error> {
    if bodies == [] then Ok([])
    else
      var last := bodies[|bodies| - 1];
      match BodyDecls(bodies[..|bodies| - 1], c)
      case Err(e) => Err(e)
      case Ok(before) =>
        match ZodOf(last.schema, c)
        case Err(e) => Err(e)
        case Ok(expr) => Ok(before + [Decl(last.op + "Schema", expr)])
  }

  method CollectBodies(bodies: seq<Body>, c: Components) returns (needed: set<string>)
    ensures IsClosed(c, needed) && IsNeeded(c, bodies, needed)
  {
    hide ReachedFrom, Deps;
    var out := new NameSet();
    for i := 0 to |bodies|
      invariant IsClosed(c, out.names)
      invariant IsNeeded(c, bodies[..i], out.names)
    {
      ghost var before := out.names;
      Collect(bodies[i].schema, c, out);
      CollectedIsReached(c, bodies[i].schema, before, out.names);
      assert bodies[..i + 1] == bodies[..i] + [bodies[i]];
    }
    assert bodies[..|bodies|] == bodies;
    needed := out.names;
  }

  /** The declarations of a service's module, components first, or the first error. */
  ghost function ModuleOf(c: Components, bodies: seq<Body>, needed: set<string>): Result<seq<Decl>, Error> {
    match ComponentDecls(DependencyOrder(c, needed), c)
    case Err(e) => Err(e)
    case Ok(decls) =>
      match BodyDecls(bodies, c)
      case Err(e) => Err(e)
      case Ok(exports) => Ok(decls + exports)
  }

  method EmitModule(c: Components, bodies: seq<Body>) returns (r: Result<seq<Decl>, Error>)
    ensures exists needed :: IsClosed(c, needed) && IsNeeded(c, bodies, needed)
              && r == ModuleOf(c, bodies, needed)
              && (r.Ok? && CyclesAscend(c, needed) ==> UsesEarlier(r.value))
              && (r.Ok? ==> (Loads(r.value) <==> IsLoadable(c, bodies, needed)))
              && (r.Ok? <==> AllRenderable(c, bodies, needed))
              && (r.Ok? ==> Represents(r.value, c, bodies, needed))
  {
    hide AllRenderable, Represents, IsClosed, IsNeeded, CyclesAscend, UsesEarlier, Loads, IsLoadable, ComponentDecls, BodyDecls, DependencyOrder;
    var names := CollectBodies(bodies, c);
    var order := OrderDependencies(c, names);
    var decls := ComponentDecls(order, c);
    ModuleRendersIff(c, bodies, names);
    if decls.Err? {
      assert ModuleOf(c, bodies, names) == Err(decls.error);
      return Err(decls.error);
    }
    var exports := BodyDecls(bodies, c);
    if exports.Err? {
      assert ModuleOf(c, bodies, names) == Err(exports.error);
      return Err(exports.error);
    }
    r := Ok(decls.value + exports.value);
    assert ModuleOf(c, bodies, names) == r;
    ModuleUsesEarlierIff(c, bodies, names);
    ModuleLoadsIff(c, bodies, names);
    ModuleRepresents(c, bodies, names);
  }

  lemma {:induction false} DeclAt(order: seq<string>, c: Components, i: nat)
    requires ComponentDecls(order, c).Ok? && i < |order|
    ensures |ComponentDecls(order, c).value| == |order|
    ensures var d := ComponentDecls(order, c).value[i];
      && d.ident == ConstName(order[i]) && order[i] in c && ZodOf(Lookup(c, order[i]), c) == Ok(d.expr)
    decreases |order|
  {
    hide ConstName, ZodOf;
    var p := order[..|order| - 1];
    if p != [] {
      DeclAt(p, c, if i < |p| then i else 0);
    }
    ZodOfNil(c);
  }

  lemma ZodOfNil(c: Components)
    ensures ZodOf(Nil, c).Err?
  {
  }

  lemma {:induction false} BodyDeclAt(bodies: seq<Body>, c: Components, i: nat)
    requires BodyDecls(bodies, c).Ok? && i < |bodies|
    ensures |BodyDecls(bodies, c).value| == |bodies|
    ensures var d := BodyDecls(bodies, c).value[i];
      d.ident == bodies[i].op + "Schema" && ZodOf(bodies[i].schema, c) == Ok(d.expr)
    decreases |bodies|
  {
    hide ZodOf;
    var p := bodies[..|bodies| - 1];
    if p != [] {
      BodyDeclAt(p, c, if i < |p| then i else 0);
    }
  }

  function Idents(decls: seq<Decl>): set<string> {
    set k | 0 <= k < |decls| :: decls[k].ident
  }

  ghost predicate UsesEarlier(decls: seq<Decl>) {
    forall i :: 0 <= i < |decls| ==> Used(decls[i].expr) <= Idents(decls[..i])
  }

  /** In the emitted module every schema constant is declared on an earlier line than any use if and only if the
      rendered references on cycles ascend; constants shared by two names can only hide a late one. */
  lemma ModuleUsesEarlierIff(c: Components, bodies: seq<Body>, needed: set<string>)
    requires IsClosed(c, needed) && IsNeeded(c, bodies, needed) && ModuleOf(c, bodies, needed).Ok?
    ensures CyclesAscend(c, needed) ==> UsesEarlier(ModuleOf(c, bodies, needed).value)
    ensures DistinctNames(needed) ==>
      (UsesEarlier(ModuleOf(c, bodies, needed).value) <==> CyclesAscend(c, needed))
    ensures needed <= c.Keys
  {
    hide DependencyOrder, ComponentDecls, BodyDecls, CyclesAscend, RenderedEarlier, UsesEarlier, DistinctNames, IsClosed, IsNeeded;
    var order := DependencyOrder(c, needed);
    RenderedEarlierIff(c, needed);
    NeededResolve(c, needed);
    if RenderedEarlier(c, order) {
      ModuleUsesEarlier(c, bodies, needed);
    }
    if DistinctNames(needed) && UsesEarlier(ModuleOf(c, bodies, needed).value) {
      UsingEarlierRenders(c, bodies, needed);
    }
  }

  lemma NeededResolve(c: Components, needed: set<string>)
    requires IsClosed(c, needed) && ComponentDecls(DependencyOrder(c, needed), c).Ok?
    ensures needed <= c.Keys
  {
    hide DependencyOrder, ComponentDecls;
    var order := DependencyOrder(c, needed);
    OrderListsEachOnce(c, needed);
    forall n | n in needed ensures n in c {
      assert n in Members(order);
      var i :| 0 <= i < |order| && order[i] == n;
      DeclAt(order, c, i);
    }
  }

  lemma ModuleUsesEarlier(c: Components, bodies: seq<Body>, needed: set<string>)
    requires IsClosed(c, needed) && IsNeeded(c, bodies, needed) && ModuleOf(c, bodies, needed).Ok?
    requires RenderedEarlier(c, DependencyOrder(c, needed))
    ensures UsesEarlier(ModuleOf(c, bodies, needed).value)
  {
    hide DependencyOrder, Reaches, ReachedFrom, Deps, Used, ConstName, ComponentDecls, BodyDecls, RenderedEarlier, Rendered;
    var order := DependencyOrder(c, needed);
    var decls, exports := ComponentDecls(order, c).value, BodyDecls(bodies, c).value;
    OrderListsEachOnce(c, needed);
    DeclsLength(order, bodies, c);
    var all: seq<Decl> := decls + exports;
    forall i | 0 <= i < |all| ensures Used(all[i].expr) <= Idents(all[..i]) {
      if i < |decls| {
        ComponentUsesEarlier(c, order, i);
        assert all[..i] == decls[..i];
      } else {
        BodyUsesComponents(c, bodies, needed, order, i - |decls|);
        IdentsGrow(decls, exports, i);
      }
    }
  }

  lemma UsingEarlierRenders(c: Components, bodies: seq<Body>, needed: set<string>)
    requires IsClosed(c, needed) && DistinctNames(needed) && ModuleOf(c, bodies, needed).Ok?
    requires UsesEarlier(ModuleOf(c, bodies, needed).value)
    ensures RenderedEarlier(c, DependencyOrder(c, needed))
  {
    hide DependencyOrder, Deps, Used, ConstName, ComponentDecls, BodyDecls, Rendered, DistinctNames, ZodOf, Idents, DirectRefs;
    var order := DependencyOrder(c, needed);
    var decls, exports := ComponentDecls(order, c).value, BodyDecls(bodies, c).value;
    OrderListsEachOnce(c, needed);
    DeclsLength(order, bodies, c);
    forall i, y | 0 <= i < |order| && y in Rendered(Lookup(c, order[i])) ensures y in Members(order[..i]) {
      assert order[i] in Members(order);
      DeclAt(order, c, i);
      UsedAreRendered(Lookup(c, order[i]), c);
      RenderedAreReferences(Lookup(c, order[i]));
      assert y in needed by { ReferencesAreNeeded(c, needed, order[i]); }
      assert (decls + exports)[i] == decls[i] && (decls + exports)[..i] == decls[..i];
      assert ConstName(y) in Idents(decls[..i]);
      DeclaredIsListed(c, order, i, y, needed);
    }
  }

  lemma ReferencesAreNeeded(c: Components, needed: set<string>, n: string)
    requires IsClosed(c, needed) && n in needed
    ensures DirectRefs(Lookup(c, n)) <= needed
  {
    assert Deps(c, n) <= needed;
  }

  /** With distinct constants, a declared constant tells which component was declared. */
  lemma DeclaredIsListed(c: Components, order: seq<string>, i: nat, y: string, needed: set<string>)
    requires ComponentDecls(order, c).Ok? && i <= |order| == |ComponentDecls(order, c).value|
    requires Members(order) == needed && DistinctNames(needed) && y in needed
    requires ConstName(y) in Idents(ComponentDecls(order, c).value[..i])
    ensures y in Members(order[..i])
  {
    hide ConstName, ComponentDecls, LowerFirst;
    var decls := ComponentDecls(order, c).value;
    var j :| 0 <= j < i && decls[..i][j].ident == ConstName(y);
    DeclAt(order, c, j);
    assert order[j] in Members(order);
    SameConst(order[j], y);
    assert order[..i][j] == order[j];
  }

  lemma DeclsLength(order: seq<string>, bodies: seq<Body>, c: Components)
    requires ComponentDecls(order, c).Ok? && BodyDecls(bodies, c).Ok?
    ensures |ComponentDecls(order, c).value| == |order| && |BodyDecls(bodies, c).value| == |bodies|
  {
    if order != [] {
      DeclAt(order, c, 0);
    }
    if bodies != [] {
      BodyDeclAt(bodies, c, 0);
    }
  }

  /** The constants of a module mean what their expressions accept. */
  ghost predicate Models(decls: seq<Decl>, idents: Meaning) {
    forall k, v :: 0 <= k < |decls| ==> ((decls[k].ident, v) in idents <==> Accepts(decls[k].expr, v, idents))
  }

  /** What a constant stands for takes in every value that conforms to the schema, and nothing else if the schema declares
      its required members. */
  ghost predicate Covers(ident: string, s: Schema, env: Meaning, idents: Meaning) {
    && (forall v :: Conforms(s, v, env) ==> (ident, v) in idents)
    && (DeclaresRequired(s) ==> forall v :: (ident, v) in idents ==> Conforms(s, v, env))
  }

  /** The module declares a constant for each needed component and after them one for each body, in order, and each one
      covers its schema. */
  ghost predicate Represents(decls: seq<Decl>, c: Components, bodies: seq<Body>, needed: set<string>) {
    && |decls| == |needed| + |bodies|
    && (forall n :: n in needed ==> exists k :: 0 <= k < |needed| && decls[k].ident == ConstName(n))
    && (forall i :: 0 <= i < |bodies| ==> decls[|needed| + i].ident == bodies[i].op + "Schema")
    && forall env, idents :: Interprets(c, env, idents) && Models(decls, idents) ==>
         && (forall n :: n in needed ==> Covers(ConstName(n), Lookup(c, n), env, idents))
         && forall i :: 0 <= i < |bodies| ==> Covers(bodies[i].op + "Schema", bodies[i].schema, env, idents)
  }

  lemma DeclCovers(s: Schema, c: Components, d: Decl, env: Meaning, idents: Meaning)
    requires ZodOf(s, c) == Ok(d.expr) && Interprets(c, env, idents)
    requires forall v :: (d.ident, v) in idents <==> Accepts(d.expr, v, idents)
    ensures Covers(d.ident, s, env, idents)
  {
    hide Interprets, ZodOf, Conforms, Accepts, DeclaresRequired;
    forall v
      ensures Conforms(s, v, env) ==> Accepts(d.expr, v, idents)
      ensures DeclaresRequired(s) ==> (Accepts(d.expr, v, idents) <==> Conforms(s, v, env))
    {
      AcceptsConforming(s, c, v, env, idents);
    }
  }

  lemma {:induction false} MembersCount(order: seq<string>)
    requires NoRepeats(order)
    ensures |Members(order)| == |order|
    decreases |order|
  {
    if order == [] {
      MembersOfNothing();
    } else {
      var rest, last := order[..|order| - 1], order[|order| - 1];
      MembersCount(rest);
      assert last !in Members(rest);
      hide Members, NoRepeats;
      MembersOfSnoc(rest, last);
      assert order == rest + [last];
    }
  }

  lemma ModuleRepresents(c: Components, bodies: seq<Body>, needed: set<string>)
    requires IsClosed(c, needed) && ModuleOf(c, bodies, needed).Ok?
    ensures Represents(ModuleOf(c, bodies, needed).value, c, bodies, needed)
  {
    hide DependencyOrder, ComponentDecls, BodyDecls, Interprets, ConstName, ZodOf, Accepts, Covers, IsClosed;
    var order := DependencyOrder(c, needed);
    var decls, exports := ComponentDecls(order, c).value, BodyDecls(bodies, c).value;
    var all: seq<Decl> := decls + exports;
    OrderListsEachOnce(c, needed);
    MembersCount(order);
    DeclsLength(order, bodies, c);
    forall n | n in needed
      ensures exists k :: 0 <= k < |needed| && all[k].ident == ConstName(n) && ZodOf(Lookup(c, n), c) == Ok(all[k].expr)
    {
      assert n in Members(order);
      var k :| 0 <= k < |order| && order[k] == n;
      DeclAt(order, c, k);
      assert all[k] == decls[k];
    }
    forall i | 0 <= i < |bodies|
      ensures all[|needed| + i].ident == bodies[i].op + "Schema"
      ensures ZodOf(bodies[i].schema, c) == Ok(all[|needed| + i].expr)
    {
      BodyDeclAt(bodies, c, i);
    }
    forall env, idents | Interprets(c, env, idents) && Models(all, idents)
      ensures forall n :: n in needed ==> Covers(ConstName(n), Lookup(c, n), env, idents)
      ensures forall i :: 0 <= i < |bodies| ==> Covers(bodies[i].op + "Schema", bodies[i].schema, env, idents)
    {
      forall n | n in needed ensures Covers(ConstName(n), Lookup(c, n), env, idents) {
        var k :| 0 <= k < |needed| && all[k].ident == ConstName(n) && ZodOf(Lookup(c, n), c) == Ok(all[k].expr);
        DeclCovers(Lookup(c, n), c, all[k], env, idents);
      }
      forall i | 0 <= i < |bodies| ensures Covers(bodies[i].op + "Schema", bodies[i].schema, env, idents) {
        DeclCovers(bodies[i].schema, c, all[|needed| + i], env, idents);
      }
    }
  }

  /** A module is emitted if and only if every needed component and every body can be rendered. */
  ghost predicate AllRenderable(c: Components, bodies: seq<Body>, needed: set<string>) {
    && (forall n :: n in needed ==> IsRenderable(Lookup(c, n), c))
    && forall i :: 0 <= i < |bodies| ==> IsRenderable(bodies[i].schema, c)
  }

  lemma {:induction false} ComponentsRenderIff(order: seq<string>, c: Components)
    ensures ComponentDecls(order, c).Ok? <==> forall n :: n in order ==> IsRenderable(Lookup(c, n), c)
    decreases |order|
  {
    hide ZodOf, IsRenderable, Lookup, ConstName;
    if order != [] {
      var rest, last := order[..|order| - 1], order[|order| - 1];
      ComponentsRenderIff(rest, c);
      RendersIff(Lookup(c, last), c);
      assert order == rest + [last];
    }
  }

  lemma {:induction false} BodiesRenderIff(bodies: seq<Body>, c: Components)
    ensures BodyDecls(bodies, c).Ok? <==> forall i :: 0 <= i < |bodies| ==> IsRenderable(bodies[i].schema, c)
    decreases |bodies|
  {
    hide ZodOf, IsRenderable;
    if bodies != [] {
      var rest, last := bodies[..|bodies| - 1], bodies[|bodies| - 1];
      BodiesRenderIff(rest, c);
      RendersIff(last.schema, c);
      assert bodies == rest + [last];
    }
  }

  lemma ModuleRendersIff(c: Components, bodies: seq<Body>, needed: set<string>)
    requires IsClosed(c, needed)
    ensures ModuleOf(c, bodies, needed).Ok? <==> AllRenderable(c, bodies, needed)
  {
    hide DependencyOrder, ComponentDecls, BodyDecls, IsRenderable, IsClosed;
    var order := DependencyOrder(c, needed);
    OrderListsEachOnce(c, needed);
    ComponentsRenderIff(order, c);
    BodiesRenderIff(bodies, c);
    forall n ensures n in order <==> n in needed {
      assert n in Members(order) <==> n in needed;
    }
  }

  lemma IdentsGrow(decls: seq<Decl>, exports: seq<Decl>, i: nat)
    requires |decls| <= i <= |decls + exports|
    ensures Idents(decls) <= Idents((decls + exports)[..i])
  {
    forall k | 0 <= k < |decls| ensures decls[k].ident in Idents((decls + exports)[..i]) {
      assert (decls + exports)[..i][k] == decls[k];
    }
  }

  lemma ListedIsDeclared(c: Components, order: seq<string>, i: nat, n: string)
    requires ComponentDecls(order, c).Ok? && i <= |order| == |ComponentDecls(order, c).value| && n in order[..i]
    ensures ConstName(n) in Idents(ComponentDecls(order, c).value[..i])
  {
    hide ConstName, ComponentDecls;
    var j :| 0 <= j < i && order[j] == n;
    DeclAt(order, c, j);
    assert ComponentDecls(order, c).value[..i][j].ident == ConstName(n);
  }

  lemma ComponentUsesEarlier(c: Components, order: seq<string>, i: nat)
    requires ComponentDecls(order, c).Ok? && i < |order| == |ComponentDecls(order, c).value|
    requires RenderedEarlier(c, order)
    ensures Used(ComponentDecls(order, c).value[i].expr) <= Idents(ComponentDecls(order, c).value[..i])
  {
    hide ConstName, ComponentDecls, ZodOf, Used, Idents, Rendered;
    DeclAt(order, c, i);
    UsedAreRendered(Lookup(c, order[i]), c);
    forall n | n in Rendered(Lookup(c, order[i])) ensures ConstName(n) in Idents(ComponentDecls(order, c).value[..i]) {
      assert n in Members(order[..i]);
      ListedIsDeclared(c, order, i, n);
    }
  }

  lemma BodyUsesComponents(c: Components, bodies: seq<Body>, needed: set<string>, order: seq<string>, i: nat)
    requires ComponentDecls(order, c).Ok? && |order| == |ComponentDecls(order, c).value| && Members(order) == needed
    requires BodyDecls(bodies, c).Ok? && i < |bodies| == |BodyDecls(bodies, c).value| && IsNeeded(c, bodies, needed)
    ensures Used(BodyDecls(bodies, c).value[i].expr) <= Idents(ComponentDecls(order, c).value)
  {
    hide ConstName, ComponentDecls, BodyDecls, ZodOf, Used, Idents, DirectRefs, Rendered;
    BodyDeclAt(bodies, c, i);
    UsedAreRendered(bodies[i].schema, c);
    RenderedAreReferences(bodies[i].schema);
    var decls := ComponentDecls(order, c).value;
    assert decls[..|order|] == decls && order[..|order|] == order;
    forall n | n in DirectRefs(bodies[i].schema) ensures ConstName(n) in Idents(decls) {
      assert ReachedFrom(c, bodies[i].schema, n);
      assert n in Members(order);
      ListedIsDeclared(c, order, |order|, n);
    }
  }

  // ---- one constant for each component ----

  predicate DistinctIdents(decls: seq<Decl>) {
    forall i, j :: 0 <= i < j < |decls| ==> decls[i].ident != decls[j].ident
  }

  ghost predicate DistinctNames(names: set<string>) {
    forall m, n :: m in names && n in names && m != n ==> LowerFirst(m) != LowerFirst(n)
  }

  /** The component constants are distinct exactly when no two needed names differ only in the case
      of their first letter. */
  lemma ConstantsDistinct(c: Components, needed: set<string>)
    requires IsClosed(c, needed) && ComponentDecls(DependencyOrder(c, needed), c).Ok?
    ensures DistinctIdents(ComponentDecls(DependencyOrder(c, needed), c).value) <==> DistinctNames(needed)
  {
    hide DependencyOrder, ComponentDecls, LowerFirst;
    var order := DependencyOrder(c, needed);
    var decls := ComponentDecls(order, c).value;
    OrderListsEachOnce(c, needed);
    if order != [] {
      DeclAt(order, c, 0);
    }
    forall i | 0 <= i < |order| ensures decls[i].ident == ConstName(order[i]) && order[i] in needed {
      DeclAt(order, c, i);
      assert order[i] in Members(order);
    }
    assert |decls| == |order| by { DeclsLength(order, [], c); }
    forall m, n ensures ConstName(m) == ConstName(n) <==> LowerFirst(m) == LowerFirst(n) {
      SameConst(m, n);
    }
    if DistinctIdents(decls) {
      forall m, n | m in needed && n in needed && m != n ensures LowerFirst(m) != LowerFirst(n) {
        assert m in Members(order) && n in Members(order);
        var i :| 0 <= i < |order| && order[i] == m;
        var j :| 0 <= j < |order| && order[j] == n;
        assert decls[i].ident != decls[j].ident;
      }
    }
  }

  lemma SameConst(m: string, n: string)
    ensures ConstName(m) == ConstName(n) <==> LowerFirst(m) == LowerFirst(n)
  {
    hide LowerFirst;
    SameSuffixed(LowerFirst(m), LowerFirst(n));
  }

  predicate DistinctOps(bodies: seq<Body>) {
    forall i, j :: 0 <= i < j < |bodies| ==> bodies[i].op != bodies[j].op
  }

  /** No operation is named like the constant of a component, less its suffix. */
  predicate OpsAvoid(bodies: seq<Body>, names: set<string>) {
    forall i, n :: 0 <= i < |bodies| && n in names ==> bodies[i].op != LowerFirst(n)
  }

  /** The constants of the whole module are distinct exactly when the needed names differ in more than the case of
      their first letter, the operations have different names, and no operation has the name of a component with a
      lower-case first letter. */
  lemma ModuleConstantsDistinct(c: Components, bodies: seq<Body>, needed: set<string>)
    requires IsClosed(c, needed) && ModuleOf(c, bodies, needed).Ok?
    ensures DistinctIdents(ModuleOf(c, bodies, needed).value) <==>
            DistinctNames(needed) && DistinctOps(bodies) && OpsAvoid(bodies, needed)
  {
    hide DependencyOrder, ComponentDecls, BodyDecls, DistinctIdents, DistinctNames, DistinctOps, OpsAvoid, IsClosed;
    var decls := ComponentDecls(DependencyOrder(c, needed), c).value;
    var exports := BodyDecls(bodies, c).value;
    ConstantsDistinct(c, needed);
    BodyConstantsDistinct(c, bodies);
    ConstantsApart(c, bodies, needed);
    DistinctConcat(decls, exports);
  }

  predicate AreApart(a: seq<Decl>, b: seq<Decl>) {
    forall i, j :: 0 <= i < |a| && 0 <= j < |b| ==> a[i].ident != b[j].ident
  }

  lemma DistinctConcat(a: seq<Decl>, b: seq<Decl>)
    ensures DistinctIdents(a + b) <==> DistinctIdents(a) && DistinctIdents(b) && AreApart(a, b)
  {
    var all := a + b;
    assert forall i :: 0 <= i < |a| ==> all[i] == a[i];
    assert forall j :: 0 <= j < |b| ==> all[|a| + j] == b[j];
    if DistinctIdents(all) {
      forall i, j | 0 <= i < j < |b| ensures b[i].ident != b[j].ident {
        assert all[|a| + i].ident != all[|a| + j].ident;
      }
      forall i, j | 0 <= i < |a| && 0 <= j < |b| ensures a[i].ident != b[j].ident {
        assert all[i].ident != all[|a| + j].ident;
      }
    }
  }

  lemma BodyConstantsDistinct(c: Components, bodies: seq<Body>)
    requires BodyDecls(bodies, c).Ok?
    ensures DistinctIdents(BodyDecls(bodies, c).value) <==> DistinctOps(bodies)
  {
    hide BodyDecls, ZodOf;
    var exports := BodyDecls(bodies, c).value;
    assert |exports| == |bodies| by { DeclsLength([], bodies, c); }
    forall i | 0 <= i < |bodies| ensures exports[i].ident == bodies[i].op + "Schema" {
      BodyDeclAt(bodies, c, i);
    }
    forall i, j | 0 <= i < j < |bodies| ensures exports[i].ident == exports[j].ident <==> bodies[i].op == bodies[j].op {
      SameSuffixed(bodies[i].op, bodies[j].op);
    }
  }

  lemma ConstantsApart(c: Components, bodies: seq<Body>, needed: set<string>)
    requires IsClosed(c, needed)
    requires ComponentDecls(DependencyOrder(c, needed), c).Ok? && BodyDecls(bodies, c).Ok?
    ensures AreApart(ComponentDecls(DependencyOrder(c, needed), c).value, BodyDecls(bodies, c).value)
       <==> OpsAvoid(bodies, needed)
  {
    hide DependencyOrder, ComponentDecls, BodyDecls, ZodOf, LowerFirst, IsClosed;
    var order := DependencyOrder(c, needed);
    var decls, exports := ComponentDecls(order, c).value, BodyDecls(bodies, c).value;
    OrderListsEachOnce(c, needed);
    DeclsLength(order, bodies, c);
    forall i, j | 0 <= i < |order| && 0 <= j < |bodies|
      ensures decls[i].ident == exports[j].ident <==> bodies[j].op == LowerFirst(order[i])
    {
      DeclAt(order, c, i);
      BodyDeclAt(bodies, c, j);
      SameSuffixed(LowerFirst(order[i]), bodies[j].op);
    }
    if AreApart(decls, exports) {
      forall j, n | 0 <= j < |bodies| && n in needed ensures bodies[j].op != LowerFirst(n) {
        assert n in Members(order);
        var i :| 0 <= i < |order| && order[i] == n;
        assert decls[i].ident != exports[j].ident;
      }
    }
    if OpsAvoid(bodies, needed) {
      forall i, j | 0 <= i < |decls| && 0 <= j < |exports| ensures decls[i].ident != exports[j].ident {
        assert order[i] in Members(order);
      }
    }
  }

  lemma SameSuffixed(a: string, b: string)
    ensures a + "Schema" == b + "Schema" <==> a == b
  {
    if a + "Schema" == b + "Schema" {
      assert |a| == |b|;
      assert (a + "Schema")[..|a|] == a && (b + "Schema")[..|b|] == b;
    }
  }

  // ---- constants that are identifiers ----

  predicate IsAlpha(c: char) {
    c == '_' || c == '$' || 'a' <= c <= 'z' || 'A' <= c <= 'Z'
  }

  /** What the generator takes for a bare identifier; a property key that is none gets quotes, a constant does not. */
  predicate IsBare(s: string) {
    forall i :: 0 <= i < |s| ==> IsAlpha(s[i]) || (i > 0 && '0' <= s[i] <= '9')
  }

  /** A bare identifier holds letters, digits, `_` and `$`, and does not begin with a digit. */
  lemma BareIff(s: string)
    ensures IsBare(s) <==>
      && (s == "" || !('0' <= s[0] <= '9'))
      && forall c :: c in s ==> 'A' <= c <= 'Z' || 'a' <= c <= 'z' || '0' <= c <= '9' || c == '_' || c == '$'
  {
    if IsBare(s) {
      assert s != "" ==> IsAlpha(s[0]);
      forall c | c in s ensures IsAlpha(c) || '0' <= c <= '9' {
        var i :| 0 <= i < |s| && s[i] == c;
      }
    }
    assert forall i :: 0 <= i < |s| ==> s[i] in s;
  }

  lemma BareWithSuffix(s: string)
    ensures IsBare(s + "Schema") <==> IsBare(s)
  {
    var whole := s + "Schema";
    assert forall i :: 0 <= i < |s| ==> whole[i] == s[i];
    forall i | |s| <= i < |whole| ensures IsAlpha(whole[i]) {
      assert whole[i] == "Schema"[i - |s|];
    }
  }

  lemma BareLowered(s: string)
    ensures IsBare(LowerFirst(s)) <==> IsBare(s)
  {
    if s != "" {
      var lowered := LowerFirst(s);
      if s[0] < '\U{80}' {
        assert |lowered| == |s| && forall i :: 1 <= i < |s| ==> lowered[i] == s[i];
        assert IsAlpha(lowered[0]) <==> IsAlpha(s[0]);
        SameBareness(s, lowered);
        SameBareness(lowered, s);
      } else {
        assert lowered[0] == '\U{EF}';
        assert !IsAlpha(s[0]) && !IsAlpha(lowered[0]);
      }
    }
  }

  lemma SameBareness(s: string, t: string)
    requires |s| == |t| > 0 && (forall i :: 1 <= i < |s| ==> s[i] == t[i]) && (IsAlpha(s[0]) <==> IsAlpha(t[0]))
    ensures IsBare(s) ==> IsBare(t)
  {
    hide IsAlpha;
    if IsBare(s) {
      forall i | 0 <= i < |t| ensures IsAlpha(t[i]) || (i > 0 && '0' <= t[i] <= '9') {
        assert IsAlpha(s[i]) || (i > 0 && '0' <= s[i] <= '9');
      }
    }
  }

  predicate BareIdents(decls: seq<Decl>) {
    forall i :: 0 <= i < |decls| ==> IsBare(decls[i].ident)
  }

  predicate BareNames(bodies: seq<Body>, names: set<string>) {
    && (forall i :: 0 <= i < |bodies| ==> IsBare(bodies[i].op))
    && forall n :: n in names ==> IsBare(n)
  }

  /** Every constant of the module is a bare identifier exactly when the names of its components and operations are. */
  lemma ModuleConstantsBare(c: Components, bodies: seq<Body>, needed: set<string>)
    requires IsClosed(c, needed) && ModuleOf(c, bodies, needed).Ok?
    ensures BareIdents(ModuleOf(c, bodies, needed).value) <==> BareNames(bodies, needed)
  {
    hide DependencyOrder, ComponentDecls, BodyDecls, ZodOf, IsBare, LowerFirst, IsClosed;
    var order := DependencyOrder(c, needed);
    var decls, exports := ComponentDecls(order, c).value, BodyDecls(bodies, c).value;
    var all := decls + exports;
    OrderListsEachOnce(c, needed);
    DeclsLength(order, bodies, c);
    forall i | 0 <= i < |order| ensures order[i] in needed && (IsBare(all[i].ident) <==> IsBare(order[i])) {
      assert order[i] in Members(order);
      DeclAt(order, c, i);
      BareWithSuffix(LowerFirst(order[i]));
      BareLowered(order[i]);
    }
    forall j | 0 <= j < |bodies| ensures IsBare(all[|order| + j].ident) <==> IsBare(bodies[j].op) {
      BodyDeclAt(bodies, c, j);
      BareWithSuffix(bodies[j].op);
    }
    if BareIdents(all) {
      forall n | n in needed ensures IsBare(n) {
        assert n in Members(order);
        var i :| 0 <= i < |order| && order[i] == n;
        assert IsBare(all[i].ident);
      }
      forall j | 0 <= j < |bodies| ensures IsBare(bodies[j].op) {
        assert IsBare(all[|order| + j].ident);
      }
    }
    if BareNames(bodies, needed) {
      forall k | 0 <= k < |all| ensures IsBare(all[k].ident) {
        assert k >= |order| ==> IsBare(bodies[k - |order|].op) && all[k] == all[|order| + (k - |order|)];
      }
    }
  }

  // ---- modules that load ----

  /** A module that loads: no constant is declared twice or used too early, and all are identifiers. */
  ghost predicate Loads(decls: seq<Decl>) {
    DistinctIdents(decls) && BareIdents(decls) && UsesEarlier(decls)
  }

  /** What the generator would have to check first. */
  ghost predicate IsLoadable(c: Components, bodies: seq<Body>, needed: set<string>) {
    && DistinctNames(needed) && DistinctOps(bodies) && OpsAvoid(bodies, needed)
    && BareNames(bodies, needed)
    && CyclesAscend(c, needed)
  }

  lemma ModuleLoadsIff(c: Components, bodies: seq<Body>, needed: set<string>)
    requires IsClosed(c, needed) && IsNeeded(c, bodies, needed) && ModuleOf(c, bodies, needed).Ok?
    ensures Loads(ModuleOf(c, bodies, needed).value) <==> IsLoadable(c, bodies, needed)
  {
    hide ModuleOf, DistinctIdents, BareIdents, UsesEarlier, DistinctNames, DistinctOps, OpsAvoid, BareNames, CyclesAscend, IsClosed, IsNeeded;
    ModuleConstantsDistinct(c, bodies, needed);
    ModuleConstantsBare(c, bodies, needed);
    ModuleUsesEarlierIff(c, bodies, needed);
  }

  // ---- modules that do not load ----

  function RefTo(name: string): Schema {
    Node(REF_PREFIX + name, "", [], [], Nil)
  }

  function ObjectOf(s: Schema): Schema {
    Node("", "object", [], [Property("p", s)], Nil)
  }

  /** A string schema; its items are collected and not rendered. */
  function TextOver(items: Schema): Schema {
    Node("", "string", [], [], items)
  }

  /** Component "b" renders a reference to "a", and a string schema "a" refers to "b" in its items: the order puts "b"
      first, which uses "a" too early although what is rendered has no cycle. Under exchanged names it does not. */
  lemma BackwardReference()
    ensures !CyclesAscend(map["a" := TextOver(RefTo("b")), "b" := ObjectOf(RefTo("a"))], {"a", "b"})
    ensures CyclesAscend(map["a" := ObjectOf(RefTo("b")), "b" := TextOver(RefTo("a"))], {"a", "b"})
  {
    hide Reaches;
    ReferenceTo("a");
    ReferenceTo("b");
    var c := map["a" := TextOver(RefTo("b")), "b" := ObjectOf(RefTo("a"))];
    assert Rendered(c["b"]) == {"a"} by { RenderedOfOne(RefTo("a")); }
    assert Deps(c, "a") == {"b"};
    DependencyReaches(c, "a", "b");
    assert !Less("b", "a") && Less("a", "b");
    var d := map["a" := ObjectOf(RefTo("b")), "b" := TextOver(RefTo("a"))];
    assert Rendered(d["a"]) == {"b"} by { RenderedOfOne(RefTo("b")); }
    assert Rendered(d["b"]) == {};
  }

  lemma RenderedOfOne(s: Schema)
    ensures Rendered(ObjectOf(s)) == Rendered(s)
  {
    hide RefName;
    var properties := [Property("p", s)];
    assert properties[1..] == [];
    assert RenderedIn(properties) == Rendered(s) + RenderedIn([]);
  }

  /** The module of one component and one operation whose body is a reference to it. */
  lemma ModuleOfOne(name: string, schema: Schema, op: string)
    requires name != "" && DirectRefs(schema) <= {name}
    ensures var c, bodies := map[name := schema], [Body(op, RefTo(name))];
      && IsClosed(c, {name}) && IsNeeded(c, bodies, {name})
      && ModuleOf(c, bodies, {name}) ==
         match ZodOf(schema, c)
         case Err(e) => Err(e)
         case Ok(expr) => Ok([Decl(ConstName(name), expr), Decl(op + "Schema", Const(ConstName(name)))])
  {
    hide ConstName, DependencyOrder, Reaches;
    var c, body := map[name := schema], Body(op, RefTo(name));
    ReferenceTo(name);
    assert IsClosed(c, {name});
    NeedsOne(c, body, name);
    SingleOrder(c, name);
    var order := [name];
    assert order[..|order| - 1] == [];
    assert ComponentDecls(order[..|order| - 1], c) == Ok([]);
    assert Lookup(c, name) == schema;
    var bodies := [body];
    assert bodies[..|bodies| - 1] == [];
    assert BodyDecls(bodies[..|bodies| - 1], c) == Ok([]);
    assert ZodOf(body.schema, c) == Ok(Const(ConstName(name)));
    if ZodOf(schema, c).Ok? {
      var d, e := Decl(ConstName(name), ZodOf(schema, c).value), Decl(op + "Schema", Const(ConstName(name)));
      assert [] + [d] == [d] && [] + [e] == [e] && [d] + [e] == [d, e];
      assert ComponentDecls(order, c) == Ok([d]) && BodyDecls(bodies, c) == Ok([e]);
    }
  }

  lemma ReferenceTo(name: string)
    ensures RefName(REF_PREFIX + name) == name && REF_PREFIX + name != ""
  {
    assert (REF_PREFIX + name)[|REF_PREFIX|..] == name;
  }

  lemma NeedsOne(c: Components, body: Body, name: string)
    requires IsClosed(c, {name}) && DirectRefs(body.schema) == {name}
    ensures IsNeeded(c, [body], {name})
  {
    hide Reaches, DirectRefs;
    ClosedHoldsAll(c, {name}, body.schema);
    assert name in DirectRefs(body.schema);
    assert [body][0] == body;
  }

  lemma SingleOrder(c: Components, name: string)
    requires IsClosed(c, {name})
    ensures DependencyOrder(c, {name}) == [name]
  {
    hide DependencyOrder;
    var order := DependencyOrder(c, {name});
    OrderListsEachOnce(c, {name});
    assert name in Members(order);
    forall i | 0 <= i < |order| ensures order[i] == name {
      assert order[i] in Members(order);
    }
    OnlyOne(order, name);
  }

  lemma OnlyOne(order: seq<string>, name: string)
    requires order != [] && NoRepeats(order) && forall i :: 0 <= i < |order| ==> order[i] == name
    ensures order == [name]
  {
    assert order[0] == order[|order| - 1];
  }

  /** A component that refers to itself is declared by itself: the module uses a constant before it is declared. */
  lemma SelfReference(name: string, op: string)
    requires name != ""
    ensures var k := ConstName(name);
      var c := map[name := RefTo(name)];
      var bodies := [Body(op, RefTo(name))];
      && IsClosed(c, {name}) && IsNeeded(c, bodies, {name}) && !IsAcyclic(c, {name})
      && ModuleOf(c, bodies, {name}) == Ok([Decl(k, Const(k)), Decl(op + "Schema", Const(k))])
      && !UsesEarlier(ModuleOf(c, bodies, {name}).value)
  {
    hide ConstName, ModuleOf, IsNeeded;
    var schema := RefTo(name);
    var c := map[name := schema];
    ReferenceTo(name);
    ModuleOfOne(name, schema, op);
    assert name in Deps(c, name);
    DependencyReaches(c, name, name);
    var k := ConstName(name);
    var decls := [Decl(k, Const(k)), Decl(op + "Schema", Const(k))];
    assert k in Used(decls[0].expr) && Idents(decls[..0]) == {};
  }

  /** An operation named like its component gets the component's constant, such as the component "CreateOrder" and the
      operation "createOrder": the module declares it twice, the second time by itself, although nothing is cyclic. */
  lemma OperationTakesConstant(name: string)
    requires name != ""
    ensures var k := ConstName(name);
      var c := map[name := Node("", "string", [], [], Nil)];
      var bodies := [Body(LowerFirst(name), RefTo(name))];
      && IsClosed(c, {name}) && IsNeeded(c, bodies, {name}) && IsAcyclic(c, {name})
      && ModuleOf(c, bodies, {name}) == Ok([Decl(k, Leaf("string")), Decl(k, Const(k))])
  {
    hide LowerFirst, ModuleOf, IsNeeded;
    var schema := Node("", "string", [], [], Nil);
    var c := map[name := schema];
    ModuleOfOne(name, schema, LowerFirst(name));
    assert ZodOf(schema, c) == Ok(Leaf("string"));
    NothingReached(c, name, name);
  }

  lemma NothingReached(c: Components, a: string, b: string)
    requires Deps(c, a) == {}
    ensures !Reaches(c, a, b)
  {
    hide Deps;
    forall k: nat ensures !ReachesIn(c, a, b, k) {
    }
  }

  /** Two components whose names differ only in the case of the first letter, such as "Money" and
      "money", get the same constant. */
  lemma CollidingConstants(tail: string)
    ensures "M" + tail != "m" + tail && ConstName("M" + tail) == ConstName("m" + tail)
  {
    var upper, lower := "M" + tail, "m" + tail;
    assert upper[0] == 'M' && lower[0] == 'm';
    assert upper[1..] == tail && lower[1..] == tail;
    LowerFirstOf(upper, 'm');
    LowerFirstOf(lower, 'm');
  }

  /** Two letters outside ASCII whose last bytes agree, such as "Ä" and "Ą": the lower-casing takes the first byte alone
      and makes both the same. */
  lemma CollidingLetters(a: char, b: char, tail: string)
    requires a >= '\U{80}' && b >= '\U{80}'
    ensures ConstName([a] + tail) == ConstName([b] + tail) == REPLACEMENT + tail + "Schema"
  {
    assert ([a] + tail)[1..] == tail && ([b] + tail)[1..] == tail;
  }

  lemma LowerFirstOf(s: string, c: char)
    requires s != "" && LowerByte(s[0]) == [c]
    ensures LowerFirst(s) == [c] + s[1..]
  {
  }
}
