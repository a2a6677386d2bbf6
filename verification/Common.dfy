/** Values shared by the whole model. */
module Common {

  datatype Option<+T> = None | Some(value: T)

  /** The error variants the modelled code returns; their messages are left out. */
  datatype GraphError =
    | InvalidEdge(src: nat, dst: nat)
    | UnsupportedGraphSize
    | InvalidTraversal
    | CircuitOpen

  datatype Result<+T> = Success(value: T) | Failure(error: GraphError) {
    predicate IsFailure() { Failure? }

    function PropagateFailure<U>(): Result<U>
      requires Failure?
    {
      Failure(error)
    }

    function Extract(): T
      requires Success?
    {
      value
    }
  }

  datatype Edge = Edge(src: nat, dst: nat)

  /** Edge weights are carried, never computed with. */
  type Weight = real

  function Reverse(e: Edge): Edge { Edge(e.dst, e.src) }
}
