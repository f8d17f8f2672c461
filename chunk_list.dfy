/**
 * The chunk list of p0/chunk_list.h: a singly linked list of nodes, each
 * holding up to `CHL_ARR_SIZE` cells, and a cursor that walks the cells
 * node by node.
 *
 * The list is the sequence of its nodes from the head, and a pointer to a
 * node is its position in that sequence, so position `|list|` is `NULL`.
 */
module ChunkList {
  import opened MachineWords

  const CHL_ARR_SIZE: nat := 6

  /** `ChunkListNode` without its `next` pointer, which is the node's place in the list. */
  datatype ChunkListNode = ChunkListNode(len: nat, arr: seq<Generic>)

  /** A node whose live prefix `arr[0..len)` is non-empty and fits the node. */
  predicate NodeValid(n: ChunkListNode) {
    |n.arr| == CHL_ARR_SIZE && 1 <= n.len <= CHL_ARR_SIZE
  }

  predicate ListValid(list: seq<ChunkListNode>) {
    forall i :: 0 <= i < |list| ==> NodeValid(list[i])
  }

  /** The cells a full walk yields: each node's `arr[0..len)`, in list order. */
  function Flatten(list: seq<ChunkListNode>): seq<Generic>
    requires ListValid(list)
  {
    if list == [] then [] else list[0].arr[..list[0].len] + Flatten(list[1..])
  }

  /**
   * `chl_node_new(init_val, next)`: a node of length 1 holding `initVal`,
   * put in front of `next`. The cells past the first are whatever `malloc`
   * returned: `uninit`.
   */
  function NodeNew(initVal: Generic, next: seq<ChunkListNode>, uninit: seq<Generic>): (list: seq<ChunkListNode>)
    requires |uninit| == CHL_ARR_SIZE - 1
    ensures |list| == |next| + 1 && list[1..] == next
    ensures NodeValid(list[0]) && list[0].len == 1 && list[0].arr[0] == initVal
    ensures ListValid(next) ==> ListValid(list) && Flatten(list) == [initVal] + Flatten(next)
  {
    var list := [ChunkListNode(1, [initVal] + uninit)] + next;
    assert list[1..] == next;
    list
  }

  /**
   * The cells still to come from a cursor at node `node`, cell `idx`: the
   * rest of that node's live prefix, then every later node.
   */
  function RemainingFrom(list: seq<ChunkListNode>, node: nat, idx: nat): seq<Generic>
    requires ListValid(list) && node <= |list|
    requires node < |list| ==> idx <= list[node].len
  {
    if node == |list| then [] else list[node].arr[idx..list[node].len] + Flatten(list[node + 1..])
  }

  /** A cursor at the start of a list is yet to yield the whole list. */
  lemma {:induction false} RemainingFromStart(list: seq<ChunkListNode>)
    requires ListValid(list)
    ensures RemainingFrom(list, 0, 0) == Flatten(list)
  {
    if list != [] {
      assert list[1..] == list[0 + 1..];
    }
  }

  /**
   * A cursor at the end of a node has the same cells to come as one at the
   * start of the next node.
   */
  lemma AdvanceKeepsRemaining(list: seq<ChunkListNode>, node: nat)
    requires ListValid(list) && node < |list|
    ensures RemainingFrom(list, node, list[node].len) == RemainingFrom(list, node + 1, 0)
  {
    if node + 1 < |list| {
      assert list[node + 1..][1..] == list[node + 2..];
    }
  }

  /** A cursor inside a node yields that node's next cell first. */
  lemma StepRemaining(list: seq<ChunkListNode>, node: nat, idx: nat)
    requires ListValid(list) && node < |list| && idx < list[node].len
    ensures RemainingFrom(list, node, idx) == [list[node].arr[idx]] + RemainingFrom(list, node, idx + 1)
  {
    var cells, len, rest := list[node].arr, list[node].len, Flatten(list[node + 1..]);
    assert cells[idx..len] == [cells[idx]] + cells[idx + 1..len];
    assert RemainingFrom(list, node, idx) == cells[idx..len] + rest;
    assert RemainingFrom(list, node, idx + 1) == cells[idx + 1..len] + rest;
  }

  /** `ChunkListIter`: the current node and the index of the next cell in it. */
  class ChunkListIter {
    const list: seq<ChunkListNode>
    var node: nat
    var idx: nat

    ghost predicate Valid()
      reads this
    {
      ListValid(list) && node <= |list| && (node < |list| ==> idx <= list[node].len)
    }

    /** The cells this cursor is yet to yield. */
    ghost function Remaining(): seq<Generic>
      reads this
      requires Valid()
    {
      RemainingFrom(list, node, idx)
    }

    /** `chl_iter_new(head)`: a cursor at the head, at index 0, yet to yield the whole list. */
    constructor (head: seq<ChunkListNode>)
      requires ListValid(head)
      ensures Valid() && list == head && node == 0 && idx == 0
      ensures Remaining() == Flatten(head)
    {
      list := head;
      node := 0;
      idx := 0;
      new;
      RemainingFromStart(head);
    }

    /**
     * `chl_iter_next`: at the end of a node, move to the next node at index
     * 0; then report `false` if the cursor is past the last node, and
     * otherwise store the current cell in `*result` and step past it.
     * `prior` is what `*result` held before the call, left as it is on
     * `false`.
     */
    method Next(prior: Generic) returns (more: bool, result: Generic)
      requires Valid()
      modifies this
      ensures Valid()
      ensures var advance := old(node) < |list| && old(idx) == list[old(node)].len;
        var at := if advance then old(node) + 1 else old(node);
        var from := if advance then 0 else old(idx);
        more == (at < |list|) &&
        (more ==> node == at && idx == from + 1 && result == list[at].arr[from]) &&
        (!more ==> node == at && idx == from && result == prior)
      ensures more == (old(Remaining()) != [])
      ensures more ==> old(Remaining()) == [result] + Remaining()
      ensures !more ==> Remaining() == []
    {
      ghost var before := Remaining();
      if node != |list| && idx == list[node].len {
        AdvanceKeepsRemaining(list, node);
        idx := 0;
        node := node + 1;
      }
      assert Remaining() == before;
      if node == |list| {
        return false, prior;
      }
      StepRemaining(list, node, idx);
      result := list[node].arr[idx];
      idx := idx + 1;
      more := true;
    }
  }

  /**
   * Two `chl_node_new` calls build the list 5, 7; a cursor on it yields 5,
   * then 7, then reports `false`.
   */
  method TwoNodeScenario(uninit: seq<Generic>) returns (first: Generic, second: Generic, more: bool)
    requires |uninit| == CHL_ARR_SIZE - 1
    ensures first == 5 && second == 7 && !more
  {
    var tail := NodeNew(7, [], uninit);
    var head := NodeNew(5, tail, uninit);
    var it := new ChunkListIter(head);
    var ok;
    ok, first := it.Next(0);
    ok, second := it.Next(first);
    var last;
    more, last := it.Next(second);
  }
}
