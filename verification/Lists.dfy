/** Growing lists, latest element last: the shape of a trace. */
module Lists {
  datatype List<+T> = Nil | Snoc(init: List<T>, last: T)

  function One(b: bool): nat {
    if b then 1 else 0
  }

  function Append<T>(a: List<T>, b: List<T>): List<T> {
    match b
    case Nil => a
    case Snoc(init, last) => Snoc(Append(a, init), last)
  }

  function Bag<T>(l: List<T>): multiset<T> {
    match l
    case Nil => multiset{}
    case Snoc(init, last) => Bag(init) + multiset{last}
  }

  lemma BagAppend<T>(a: List<T>, b: List<T>)
    ensures Bag(Append(a, b)) == Bag(a) + Bag(b)
  {
  }
}
