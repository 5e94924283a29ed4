/**
  Non-negative distances extended with an infinite top element.

  Every distance, trip cost and activation cost of the planner is a
  non-negative quantity or "unreachable". Addition saturates at `Inf`, and
  the strict order treats `Inf` as larger than every finite value and not
  smaller than itself, which is how the planner's float infinity behaves
  under `+`, `<` and `>`.
 */
module ExtReal {

  type NonNeg = r: real | r >= 0.0

  datatype Dist = Fin(r: NonNeg) | Inf

  const Zero: Dist := Fin(0.0)

  /** Saturating addition. */
  function Add(a: Dist, b: Dist): Dist
  {
    if a.Fin? && b.Fin? then Fin(a.r + b.r) else Inf
  }

  /** Strict order with `Inf` as the top element. */
  predicate Lt(a: Dist, b: Dist)
  {
    a.Fin? && (b.Inf? || a.r < b.r)
  }

  predicate Le(a: Dist, b: Dist)
  {
    !Lt(b, a)
  }

  lemma AddComm(a: Dist, b: Dist)
    ensures Add(a, b) == Add(b, a)
  {
  }

  lemma AddAssoc(a: Dist, b: Dist, c: Dist)
    ensures Add(Add(a, b), c) == Add(a, Add(b, c))
  {
  }

  lemma LeTrans(a: Dist, b: Dist, c: Dist)
    requires Le(a, b) && Le(b, c)
    ensures Le(a, c)
  {
  }

  lemma LtLeTrans(a: Dist, b: Dist, c: Dist)
    requires Lt(a, b) && Le(b, c)
    ensures Lt(a, c)
  {
  }

  /** Adding a non-negative quantity never makes a distance smaller. */
  lemma AddGrows(a: Dist, b: Dist)
    ensures Le(a, Add(a, b)) && Le(b, Add(a, b))
  {
  }

  lemma AddMono(a: Dist, b: Dist, c: Dist, d: Dist)
    requires Le(a, c) && Le(b, d)
    ensures Le(Add(a, b), Add(c, d))
  {
  }
}
