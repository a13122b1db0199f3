/** Strictly ascending integer sequences: the shape of `sorted(set(...))`. */
module SortedInts {
  import opened Seqs

  ghost predicate StrictlyIncreasing(xs: seq<int>) {
    forall i, j :: 0 <= i < j < |xs| ==> xs[i] < xs[j]
  }

  /** Adds `x` to a strictly ascending sequence, keeping it strictly ascending
      and free of duplicates (a set insertion followed by a sort). */
  function Insert(xs: seq<int>, x: int): (r: seq<int>)
    requires StrictlyIncreasing(xs)
    ensures StrictlyIncreasing(r)
    ensures Elems(r) == Elems(xs) + {x}
  {
    if |xs| == 0 then [x]
    else if x < xs[0] then
      Cons(x, xs);
      [x] + xs
    else if x == xs[0] then xs
    else
      Tail(xs);
      var t := Insert(xs[1..], x);
      InsertBehind(xs, x, t);
      [xs[0]] + t
  }

  /** Dropping the head keeps the order and removes just the head. */
  lemma Tail(xs: seq<int>)
    requires StrictlyIncreasing(xs) && |xs| > 0
    ensures StrictlyIncreasing(xs[1..])
    ensures Elems(xs) == {xs[0]} + Elems(xs[1..])
    ensures forall j :: 0 <= j < |xs| - 1 ==> xs[0] < xs[1..][j]
  {
    assert xs == [xs[0]] + xs[1..];
  }

  /** The recursive step of `Insert`: an element above the head goes into
      the tail. */
  lemma InsertBehind(xs: seq<int>, x: int, t: seq<int>)
    requires StrictlyIncreasing(xs) && |xs| > 0 && xs[0] < x
    requires StrictlyIncreasing(t) && Elems(t) == Elems(xs[1..]) + {x}
    ensures StrictlyIncreasing([xs[0]] + t)
    ensures Elems([xs[0]] + t) == Elems(xs) + {x}
  {
    Tail(xs);
    forall j | 0 <= j < |t| ensures xs[0] < t[j] {
      assert t[j] in Elems(t);
    }
    Cons(xs[0], t);
  }

  /** Putting an element below every element in front keeps the order. */
  lemma Cons(h: int, t: seq<int>)
    requires StrictlyIncreasing(t)
    requires forall j :: 0 <= j < |t| ==> h < t[j]
    ensures StrictlyIncreasing([h] + t)
    ensures Elems([h] + t) == {h} + Elems(t)
  {
    var s := [h] + t;
    forall i, j | 0 <= i < j < |s| ensures s[i] < s[j] {
      if i > 0 {
        assert s[i] == t[i - 1] && s[j] == t[j - 1];
      }
    }
  }

  /** A finite set of integers has exactly one strictly ascending listing, so
      any two such listings of the same elements coincide. */
  lemma {:induction false} SortedUnique(a: seq<int>, b: seq<int>)
    requires StrictlyIncreasing(a) && StrictlyIncreasing(b)
    requires Elems(a) == Elems(b)
    ensures a == b
    decreases |a|
  {
    if |a| > 0 {
      assert a[0] in Elems(a);
    }
    if |b| > 0 {
      assert b[0] in Elems(b);
    }
    if |a| > 0 && |b| > 0 {
      // both heads are the minimum of the common element set
      assert a[0] in Elems(b);
      assert b[0] in Elems(a);
      assert a[0] == b[0];
      assert Elems(a[1..]) == Elems(a) - {a[0]} by {
        assert a == [a[0]] + a[1..];
      }
      assert Elems(b[1..]) == Elems(b) - {b[0]} by {
        assert b == [b[0]] + b[1..];
      }
      SortedUnique(a[1..], b[1..]);
      assert a == [a[0]] + a[1..];
      assert b == [b[0]] + b[1..];
    }
  }
}
