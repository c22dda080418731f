/** Splitting a list in one pass: the elements a predicate accepts are kept
    as they are, the others are transformed and set aside, both in input
    order. This is the shape of the reconciliation loop of commands/request.rs,
    stated once for any element type so that its proofs do not carry the
    string and number facts of the items themselves. */
module Partition {
  /** The accepted elements, in order. */
  function Kept<T>(rs: seq<T>, p: T -> bool): (r: seq<T>)
    ensures |r| <= |rs|
  {
    if rs == [] then []
    else
      var prefix := Kept(rs[..|rs| - 1], p);
      if p(rs[|rs| - 1]) then prefix + [rs[|rs| - 1]] else prefix
  }

  /** The rejected elements, each passed through `f`, in order. */
  function Rest<T>(rs: seq<T>, p: T -> bool, f: T -> T): (r: seq<T>)
    ensures |r| <= |rs|
  {
    if rs == [] then []
    else
      var prefix := Rest(rs[..|rs| - 1], p, f);
      if p(rs[|rs| - 1]) then prefix else prefix + [f(rs[|rs| - 1])]
  }

  /** One more element goes to exactly one side. */
  lemma SplitStep<T>(rs: seq<T>, p: T -> bool, f: T -> T, i: nat)
    requires i < |rs|
    ensures Kept(rs[..i + 1], p) == if p(rs[i]) then Kept(rs[..i], p) + [rs[i]] else Kept(rs[..i], p)
    ensures Rest(rs[..i + 1], p, f) == if p(rs[i]) then Rest(rs[..i], p, f) else Rest(rs[..i], p, f) + [f(rs[i])]
  {
    assert rs[..i + 1][..i] == rs[..i];
    assert rs[..i + 1][i] == rs[i];
  }

  /** Nothing is lost and nothing is duplicated. */
  lemma {:induction false} SplitLength<T>(rs: seq<T>, p: T -> bool, f: T -> T)
    ensures |Kept(rs, p)| + |Rest(rs, p, f)| == |rs|
  {
    if rs != [] {
      SplitLength(rs[..|rs| - 1], p, f);
    }
  }

  /** An accepted element `i` sits right after the kept elements before it;
      as that position grows with `i`, the input order is kept. */
  lemma {:induction false} KeptAt<T>(rs: seq<T>, p: T -> bool, i: nat)
    requires i < |rs| && p(rs[i])
    ensures var c := |Kept(rs[..i], p)|;
      c < |Kept(rs, p)| && Kept(rs, p)[c] == rs[i]
  {
    var prefix := rs[..|rs| - 1];
    if i < |rs| - 1 {
      assert prefix[..i] == rs[..i];
      assert prefix[i] == rs[i];
      KeptAt(prefix, p, i);
    } else {
      assert rs[..i] == prefix;
    }
  }

  /** A rejected element `i`, transformed, sits right after the set-aside
      elements before it. */
  lemma {:induction false} RestAt<T>(rs: seq<T>, p: T -> bool, f: T -> T, i: nat)
    requires i < |rs| && !p(rs[i])
    ensures var m := |Rest(rs[..i], p, f)|;
      m < |Rest(rs, p, f)| && Rest(rs, p, f)[m] == f(rs[i])
  {
    var prefix := rs[..|rs| - 1];
    if i < |rs| - 1 {
      assert prefix[..i] == rs[..i];
      assert prefix[i] == rs[i];
      RestAt(prefix, p, f, i);
    } else {
      assert rs[..i] == prefix;
    }
  }

  /** Everything kept was in the input and is accepted. */
  lemma {:induction false} KeptSound<T>(rs: seq<T>, p: T -> bool)
    ensures forall x :: x in Kept(rs, p) ==> x in rs && p(x)
  {
    if rs != [] {
      KeptSound(rs[..|rs| - 1], p);
    }
  }

  /** Everything set aside is the image of a rejected input element. */
  lemma {:induction false} RestSound<T>(rs: seq<T>, p: T -> bool, f: T -> T)
    ensures forall y :: y in Rest(rs, p, f) ==> exists x :: x in rs && !p(x) && y == f(x)
  {
    if rs != [] {
      var prefix := rs[..|rs| - 1];
      RestSound(prefix, p, f);
      forall y | y in Rest(rs, p, f) ensures exists x :: x in rs && !p(x) && y == f(x) {
        if y in Rest(prefix, p, f) {
          var x :| x in prefix && !p(x) && y == f(x);
          assert x in rs;
        } else {
          assert rs[|rs| - 1] in rs;
        }
      }
    }
  }

  /** Nothing is set aside exactly when every element is accepted. */
  lemma RestEmpty<T>(rs: seq<T>, p: T -> bool, f: T -> T)
    ensures Rest(rs, p, f) == [] <==> forall i :: 0 <= i < |rs| ==> p(rs[i])
  {
    if Rest(rs, p, f) != [] {
      RestSound(rs, p, f);
      assert Rest(rs, p, f)[0] in Rest(rs, p, f);
    }
    forall i | 0 <= i < |rs| && !p(rs[i]) ensures Rest(rs, p, f) != [] {
      RestAt(rs, p, f, i);
    }
  }
}
