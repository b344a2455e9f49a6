/** The power supply: it may fail at any single write to the persistent medium. */
module Power {

  /** How many more writes reach the medium. */
  datatype Charge = Endless | Last(n: nat)

  predicate Short(c: Charge, n: nat) {
    c.Last? && c.n < n
  }

  function Minus(c: Charge, n: nat): Charge
    requires !Short(c, n)
  {
    if c.Endless? then c else Last(c.n - n)
  }

  class Supply {
    var charge: Charge

    constructor (charge: Charge)
      ensures this.charge == charge
    {
      this.charge := charge;
    }

    /** Of n writes in a row the first m are done. */
    method Draw(n: nat) returns (m: nat)
      modifies this
      ensures m <= n && (m < n <==> Short(old(charge), n))
      ensures m == n ==> charge == Minus(old(charge), n)
      ensures m < n ==> m == old(charge).n && charge == Last(0)
    {
      match charge {
        case Endless => m := n;
        case Last(left) =>
          m := if left < n then left else n;
          charge := Last(left - m);
      }
    }
  }
}
