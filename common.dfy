/** Values shared by every part of the funding-rate pipeline. */
module Common {

  datatype Option<T> = None | Some(value: T)

  /** The outcome of one call into the exchange library: it throws, or it returns a value. */
  datatype Fetch<T> = Throws | Returns(value: T)

  /** A JavaScript number, idealised: NaN, or an exact real (no rounding, no infinities). */
  datatype Number = NaN | Finite(value: real)

  /** `a + b` on numbers: NaN absorbs everything. */
  function Plus(a: Number, b: Number): (r: Number)
    ensures r.NaN? <==> a.NaN? || b.NaN?
    ensures r.Finite? ==> r.value == a.value + b.value
  {
    if a.NaN? || b.NaN? then NaN else Finite(a.value + b.value)
  }

  /** A non-empty sequence is its front followed by its last element, also after a prefix. */
  lemma SnocSplit<T>(a: seq<T>, b: seq<T>)
    requires |b| > 0
    ensures b == b[..|b| - 1] + [b[|b| - 1]]
    ensures a + b == (a + b[..|b| - 1]) + [b[|b| - 1]]
  {
  }

  lemma AppendAssoc<T>(x: seq<T>, y: seq<T>, z: seq<T>)
    ensures (x + y) + z == x + (y + z)
  {
  }
}
