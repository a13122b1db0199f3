/** `AFGUtils.relabel`: the quotient of a graph under a vertex map `fv` and an
    arc-label map `fa`. Vertices and arcs come in as lists, as `read_graph`
    returns them, and leave as sets. */
module Relabel {
  import opened Seqs

  /** The image of an arc under the two maps. */
  function Image<V, W, L, M>(a: (V, V, L), fv: V -> W, fa: L -> M): (W, W, M) {
    (fv(a.0), fv(a.1), fa(a.2))
  }

  /** `fv` identifies the two endpoints of the arc, which would become a
      self-loop. */
  predicate Collapses<V, W(==), L>(a: (V, V, L), fv: V -> W) {
    fv(a.0) == fv(a.1)
  }

  /** Line 97 of the source, `set(map(fv, V))`, folded one vertex at a time:
      the result is the image of the list under `fv`. */
  function RelabelVertices<V, W(==)>(vs: seq<V>, fv: V -> W): (r: set<W>)
    ensures r == set i | 0 <= i < |vs| :: fv(vs[i])
    decreases |vs|
  {
    if |vs| == 0 then {}
    else
      var init := vs[..|vs| - 1];
      assert forall i :: 0 <= i < |init| ==> init[i] == vs[i];
      RelabelVertices(init, fv) + {fv(vs[|vs| - 1])}
  }

  /** Line 98 of the source, folded one arc at a time: the images of the arcs
      whose endpoints `fv` keeps apart, each once, and nothing else. */
  function RelabelArcs<V, W(==), L, M(==)>(arcs: seq<(V, V, L)>, fv: V -> W, fa: L -> M): (r: set<(W, W, M)>)
    ensures forall t :: t in r ==> t.0 != t.1
    ensures forall i :: 0 <= i < |arcs| && !Collapses(arcs[i], fv) ==> Image(arcs[i], fv, fa) in r
    ensures forall t :: t in r ==> exists i :: 0 <= i < |arcs| && !Collapses(arcs[i], fv) && t == Image(arcs[i], fv, fa)
    decreases |arcs|
  {
    if |arcs| == 0 then {}
    else
      var init := arcs[..|arcs| - 1];
      var a := arcs[|arcs| - 1];
      assert forall i :: 0 <= i < |init| ==> init[i] == arcs[i];
      var r := RelabelArcs(init, fv, fa);
      if Collapses(a, fv) then r else r + {Image(a, fv, fa)}
  }

  /** `relabel(V, A, fv, fa)` */
  function Relabel<V, W(==), L, M(==)>(vs: seq<V>, arcs: seq<(V, V, L)>, fv: V -> W, fa: L -> M): (r: (set<W>, set<(W, W, M)>))
    ensures r.0 == set i | 0 <= i < |vs| :: fv(vs[i])
    ensures forall t :: t in r.1 ==> t.0 != t.1
  {
    (RelabelVertices(vs, fv), RelabelArcs(arcs, fv, fa))
  }

  /** The arcs that survive: exactly the images of the arcs `fv` does not
      collapse. */
  lemma RelabelArcsMembers<V, W, L, M>(arcs: seq<(V, V, L)>, fv: V -> W, fa: L -> M, t: (W, W, M))
    ensures t in RelabelArcs(arcs, fv, fa) <==> exists a :: a in arcs && !Collapses(a, fv) && t == Image(a, fv, fa)
  {
    var r := RelabelArcs(arcs, fv, fa);
    if t in r {
      var i :| 0 <= i < |arcs| && !Collapses(arcs[i], fv) && t == Image(arcs[i], fv, fa);
      assert arcs[i] in arcs;
    }
  }

  /** With identity maps, relabelling only turns the lists into sets and drops
      self-loops; duplicates in the input collapse to one. */
  lemma RelabelIdentity<V, L>(vs: seq<V>, arcs: seq<(V, V, L)>)
    ensures RelabelVertices(vs, (x: V) => x) == Elems(vs)
    ensures RelabelArcs(arcs, (x: V) => x, (l: L) => l) == set a | a in arcs && a.0 != a.1
  {
    var id := (x: V) => x;
    var r := RelabelArcs(arcs, id, (l: L) => l);
    forall a | a in arcs && a.0 != a.1 ensures a in r {
      var i :| 0 <= i < |arcs| && arcs[i] == a;
      assert Image(arcs[i], id, (l: L) => l) == a;
    }
    forall v | v in vs ensures v in RelabelVertices(vs, id) {
      var i :| 0 <= i < |vs| && vs[i] == v;
    }
  }

  /** On a graph without self-loops the identity relabelling returns the
      vertices and arcs themselves, as sets. */
  lemma RelabelIdentityLoopFree<V, L>(vs: seq<V>, arcs: seq<(V, V, L)>)
    requires forall i :: 0 <= i < |arcs| ==> arcs[i].0 != arcs[i].1
    ensures Relabel(vs, arcs, (x: V) => x, (l: L) => l) == (Elems(vs), Elems(arcs))
  {
    RelabelIdentity(vs, arcs);
    forall a | a in arcs ensures a.0 != a.1 {
      var i :| 0 <= i < |arcs| && arcs[i] == a;
    }
    assert (set a | a in arcs && a.0 != a.1) == Elems(arcs);
  }

  lemma MemberOfSameElems<X>(s: seq<X>, s': seq<X>, x: X)
    requires Elems(s) == Elems(s')
    requires x in s
    ensures x in s'
  {
    assert x in Elems(s);
    assert x in Elems(s');
  }

  /** The result depends only on which vertices and arcs are listed, not on
      their order or repetitions. */
  lemma RelabelOrderInsensitive<V, W, L, M>(
    vs: seq<V>, vs': seq<V>, arcs: seq<(V, V, L)>, arcs': seq<(V, V, L)>, fv: V -> W, fa: L -> M)
    requires Elems(vs) == Elems(vs')
    requires Elems(arcs) == Elems(arcs')
    ensures Relabel(vs, arcs, fv, fa) == Relabel(vs', arcs', fv, fa)
  {
    forall i | 0 <= i < |vs| ensures fv(vs[i]) in RelabelVertices(vs', fv) {
      MemberOfSameElems(vs, vs', vs[i]);
      var j :| 0 <= j < |vs'| && vs'[j] == vs[i];
    }
    forall i | 0 <= i < |vs'| ensures fv(vs'[i]) in RelabelVertices(vs, fv) {
      MemberOfSameElems(vs', vs, vs'[i]);
      var j :| 0 <= j < |vs| && vs[j] == vs'[i];
    }
    assert RelabelVertices(vs, fv) == RelabelVertices(vs', fv);
    forall t | t in RelabelArcs(arcs, fv, fa) ensures t in RelabelArcs(arcs', fv, fa) {
      RelabelArcsMembers(arcs, fv, fa, t);
      RelabelArcsMembers(arcs', fv, fa, t);
      var a :| a in arcs && !Collapses(a, fv) && t == Image(a, fv, fa);
      MemberOfSameElems(arcs, arcs', a);
    }
    forall t | t in RelabelArcs(arcs', fv, fa) ensures t in RelabelArcs(arcs, fv, fa) {
      RelabelArcsMembers(arcs, fv, fa, t);
      RelabelArcsMembers(arcs', fv, fa, t);
      var a :| a in arcs' && !Collapses(a, fv) && t == Image(a, fv, fa);
      MemberOfSameElems(arcs', arcs, a);
    }
    assert RelabelArcs(arcs, fv, fa) == RelabelArcs(arcs', fv, fa);
  }

  /** Relabelling the (listed) result of a relabelling by `g` and `ga` gives
      the same arcs as one relabelling by the composed maps: an arc collapsed
      by the first step stays collapsed under the second. */
  lemma {:induction false} RelabelArcsCompose<V, W, X, L, M, N>(
    arcs: seq<(V, V, L)>, fv: V -> W, fa: L -> M, g: W -> X, ga: M -> N, listed: seq<(W, W, M)>)
    requires Elems(listed) == RelabelArcs(arcs, fv, fa)
    ensures RelabelArcs(listed, g, ga) == RelabelArcs(arcs, (x: V) => g(fv(x)), (l: L) => ga(fa(l)))
  {
    var gf := (x: V) => g(fv(x));
    var gafa := (l: L) => ga(fa(l));
    var first := RelabelArcs(arcs, fv, fa);
    forall t ensures t in RelabelArcs(listed, g, ga) <==> t in RelabelArcs(arcs, gf, gafa) {
      RelabelArcsMembers(listed, g, ga, t);
      RelabelArcsMembers(arcs, gf, gafa, t);
      if t in RelabelArcs(listed, g, ga) {
        var b :| b in listed && !Collapses(b, g) && t == Image(b, g, ga);
        assert b in first;
        RelabelArcsMembers(arcs, fv, fa, b);
        var a :| a in arcs && !Collapses(a, fv) && b == Image(a, fv, fa);
        assert Image(a, gf, gafa) == t;
        assert !Collapses(a, gf);
      }
      if t in RelabelArcs(arcs, gf, gafa) {
        var a :| a in arcs && !Collapses(a, gf) && t == Image(a, gf, gafa);
        assert !Collapses(a, fv);
        RelabelArcsMembers(arcs, fv, fa, Image(a, fv, fa));
        var b := Image(a, fv, fa);
        assert b in first;
        assert b in Elems(listed);
        assert b in listed;
        assert !Collapses(b, g) && t == Image(b, g, ga);
      }
    }
  }
}
