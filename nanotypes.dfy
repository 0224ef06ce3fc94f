/**
 * What the containers share: the result codes they return (nErrorType), and
 * the pointer to a node, which the trie and the list both keep as an index
 * into their node arena. `NotFound` is the table's own code; every other one
 * is shared by the stack and the list.
 */
module NanoTypes {
  datatype Status = Success | NoSpace | BadInput | Empty | Full | NotFound

  /** A node pointer: NULL, or the arena index of a node. */
  datatype Slot = Null | Link(index: nat)
}
