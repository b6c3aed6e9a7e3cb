/**
 The collision chain hanging from one slot of the table.

 A slot is either `None` or the head of a singly linked list of `HashNode`s,
 each holding one key and a `next` link. Here the list is an immutable value:
 `Empty` stands for `None`, `Node(key, next)` for a `HashNode`. `Keys` reads a
 chain as the sequence of its keys in insertion order; every operation on a
 chain is specified through it.
 */
module Chains {

  datatype Chain = Empty | Node(key: string, next: Chain)

  /** The keys of a chain, head first. */
  function Keys(c: Chain): seq<string> {
    match c
    case Empty => []
    case Node(k, next) => [k] + Keys(next)
  }

  /**
   The walk of `insert`'s else-branch: follow `next` until the node whose
   `next` is `None`, and hang a new node holding `key` there.
   */
  function AppendAtTail(node: Chain, key: string): (r: Chain)
    requires node.Node?
    ensures r.Node? && r.key == node.key
    ensures Keys(r) == Keys(node) + [key]
  {
    if node.next.Empty? then Node(node.key, Node(key, Empty))
    else Node(node.key, AppendAtTail(node.next, key))
  }

  /**
   `insert` on one slot: an empty slot gets a single new node, a non-empty one
   gets the new node at its tail. Duplicates are appended like any other key.
   */
  function InsertIntoChain(c: Chain, key: string): (r: Chain)
    ensures Keys(r) == Keys(c) + [key]
  {
    if c.Empty? then Node(key, Empty) else AppendAtTail(c, key)
  }

  /** The walk of `search`: does some node of the chain hold exactly `key`? */
  function FindInChain(c: Chain, key: string): (found: bool)
    ensures found <==> key in Keys(c)
  {
    match c
    case Empty => false
    case Node(k, next) => k == key || FindInChain(next, key)
  }
}
