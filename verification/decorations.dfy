/** The per-vertex traversal state (`NodeDecoration`). */
module Decorations {
  import opened Options

  /** `ulong.MaxValue`, the "infinite" distance a reset puts on every vertex. */
  const MaxDistance: nat := 0xFFFF_FFFF_FFFF_FFFF

  datatype VertexState = Unvisited | Visited | Closed

  datatype Decoration = Decoration(
    state: VertexState,
    distance: nat,          // an unsigned 64-bit counter in the library
    ancestor: Option<int>,  // identifier of the traversal predecessor, None for null
    discovered: nat,        // DFS pre-visit timestamp
    closed: nat)            // DFS post-visit timestamp

  /** A decoration as a new vertex gets it: every property at its .NET default. */
  const Fresh := Decoration(Unvisited, 0, None, 0, 0)

  /** A decoration after `NodeDecoration.Reset`. */
  const Cleared := Decoration(Unvisited, MaxDistance, None, 0, 0)
}
