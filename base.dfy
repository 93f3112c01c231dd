/** Small shared datatypes: optional values, results with an error, and
    three-way comparison outcomes with the laws a comparison must obey;
    and the filter-and-map loop several of the registry's scans share. */
module Base {

  datatype Option<+T> = None | Some(value: T)

  datatype Result<+T, +E> = Ok(value: T) | Err(error: E)

  /** The outcome of comparing a with b. */
  datatype Ordering = Lt | Eq | Gt {
    /** The outcome of comparing b with a. */
    function Flip(): Ordering {
      match this
      case Lt => Gt
      case Eq => Eq
      case Gt => Lt
    }
  }

  /** Lexicographic combination: the first component decides unless it is Eq. */
  function Then(first: Ordering, second: Ordering): Ordering {
    if first == Eq then second else first
  }

  /** What comparing a with c must give when a <= b (ab) and b <= c (bc). */
  function Chain(ab: Ordering, bc: Ordering): Ordering {
    if ab == Eq && bc == Eq then Eq else Lt
  }

  /** The transitivity law for one triple of comparison outcomes. */
  predicate TransLaw(ab: Ordering, bc: Ordering, ac: Ordering) {
    ab != Gt && bc != Gt ==> ac == Chain(ab, bc)
  }

  /** Lexicographic combination keeps the transitivity law. */
  lemma ThenKeepsTransLaw(ab1: Ordering, bc1: Ordering, ac1: Ordering, ab2: Ordering, bc2: Ordering, ac2: Ordering)
    requires TransLaw(ab1, bc1, ac1) && TransLaw(ab2, bc2, ac2)
    ensures TransLaw(Then(ab1, ab2), Then(bc1, bc2), Then(ac1, ac2))
  {
  }

  /** A prefix one longer is the prefix followed by the next element. */
  lemma PrefixStep<T>(s: seq<T>, j: nat, x: T)
    requires j < |s| && s[j] == x
    ensures s[..j + 1] == s[..j] + [x]
  {
  }

  /** Putting x in front and y behind can be done in either order. */
  lemma FrontAndBack<T>(x: T, r: seq<T>, y: T)
    ensures [x] + (r + [y]) == ([x] + r) + [y]
  {
  }

  /** A sequence of two elements is the display of those two. */
  lemma PairDisplay<T>(s: seq<T>, x: T, y: T)
    requires |s| == 2 && s[0] == x && s[1] == y
    ensures s == [x, y]
  {
  }

  /** The values f gives for the elements of xs, in order, skipping those
      it gives none for (a loop that appends what each element yields). */
  function FilterMap<A, B>(f: A -> Option<B>, xs: seq<A>): seq<B>
    decreases |xs|
  {
    if xs == [] then []
    else
      FilterMap(f, xs[..|xs| - 1]) +
        match f(xs[|xs| - 1])
        case None => []
        case Some(y) => [y]
  }

  /** One more element extends the result by what f gives for it. */
  lemma FilterMapStep<A, B>(f: A -> Option<B>, xs: seq<A>, i: nat)
    requires i < |xs|
    ensures FilterMap(f, xs[..i + 1]) == FilterMap(f, xs[..i]) +
      match f(xs[i]) case None => [] case Some(y) => [y]
  {
    assert xs[..i + 1][..i] == xs[..i];
  }

  /** Three elements that each give a value give those three values. */
  lemma FilterMapThree<A, B>(f: A -> Option<B>, a: A, b: A, c: A)
    requires f(a).Some? && f(b).Some? && f(c).Some?
    ensures FilterMap(f, [a, b, c]) == [f(a).value, f(b).value, f(c).value]
  {
    var xs := [a, b, c];
    assert xs[..2] == [a, b] && [a, b][..1] == [a] && [a][..0] == [];
    assert FilterMap(f, [a]) == [f(a).value];
    assert FilterMap(f, [a, b]) == [f(a).value, f(b).value];
  }

  /** y is in the result exactly when f gives y for some element. */
  lemma {:induction false} FilterMapMembers<A, B>(f: A -> Option<B>, xs: seq<A>, y: B)
    ensures y in FilterMap(f, xs) <==> exists i :: 0 <= i < |xs| && f(xs[i]) == Some(y)
    decreases |xs|
  {
    if xs != [] {
      var n := |xs| - 1;
      FilterMapMembers(f, xs[..n], y);
      FilterMapStep(f, xs, n);
      assert xs[..n + 1] == xs;
      assert forall i :: 0 <= i < n ==> xs[..n][i] == xs[i];
    }
  }
}
