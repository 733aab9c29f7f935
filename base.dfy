/** Small value types shared by every module. */
module Base {

  datatype Option<+T> = None | Some(value: T)

  /** A `double` that the source initialises to `+infinity` and only ever
      lowers: either still infinite or a finite value. */
  datatype Ext = Inf | Fin(v: real) {

    /** `this < other` on doubles, with `+infinity` above every finite value. */
    predicate Below(other: Ext) {
      match (this, other)
      case (Fin(a), Fin(b)) => a < b
      case (Fin(_), Inf) => true
      case (Inf, _) => false
    }

    /** `this + w` on doubles: infinity absorbs every finite summand. */
    function Plus(w: real): Ext {
      match this
      case Inf => Inf
      case Fin(a) => Fin(a + w)
    }

    /** `this + other` on doubles. */
    function Add(other: Ext): Ext {
      match (this, other)
      case (Fin(a), Fin(b)) => Fin(a + b)
      case _ => Inf
    }

    /** `std::min(this, other)`. */
    function Min(other: Ext): Ext {
      if other.Below(this) then other else this
    }
  }

  /** `Below` is a strict total order in which `Inf` is the top, and `Min`
      answers a lower bound of both arguments that is one of them. */
  lemma BelowOrder(a: Ext, b: Ext, c: Ext)
    ensures !a.Below(a)
    ensures a.Below(b) ==> !b.Below(a)
    ensures a != b ==> a.Below(b) || b.Below(a)
    ensures !a.Below(b) && !b.Below(c) ==> !a.Below(c)
    ensures !a.Below(b) ==> a == b || b.Below(a)
    ensures !a.Below(a.Min(b)) && !b.Below(a.Min(b))
    ensures a.Min(b) == a || a.Min(b) == b
  {
  }

  /** `m[k]` on a `std::map<K, double>` read through `operator[]`: an absent key
      reads as a value-initialised `0.0`. */
  function Lookup<K>(m: map<K, Ext>, k: K): (r: Ext)
    ensures k !in m ==> r == Fin(0.0)
    ensures k in m ==> r == m[k]
  {
    if k in m then m[k] else Fin(0.0)
  }
}
