/** The runtime objects the VM primitives store and move around. Only the
    distinctions the modelled code makes are kept: nil, the booleans, the
    `Undefined` marker the kernel uses as a deletion key, fixnums, and every
    other heap object as an opaque reference. */
module Objects {

  datatype Obj = Nil | True | False | Undefined | Fixnum(n: int) | Ref(id: nat)

  /** A sequence of `n` nils: what `Tuple.new(n)` allocates. */
  function Nils(n: nat): (r: seq<Obj>)
    ensures |r| == n
    ensures forall i :: 0 <= i < n ==> r[i] == Nil
  {
    seq(n, _ => Nil)
  }
}
