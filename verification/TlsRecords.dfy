/**
 What the record writers and readers of src/tls12Callouts.c share: records, the
 64-bit sequence number, and the linked queue of records waiting to be sent.
 */
module TlsRecords {
  import opened Bytes

  const MAX_CONTENT: nat := 16384

  datatype Record = Record(contentType: Byte, version: nat, contents: seq<Byte>)

  /** A part of a buffer. */
  datatype Span = Span(off: nat, len: nat)

  /** IncrementUInt64 */
  function Increment(n: nat): nat {
    (n + 1) % TWO64
  }

  class WaitingRecord {
    const data: array<Byte>
    var next: WaitingRecord?

    constructor (length: nat)
      ensures fresh(data) && data.Length == length && next == null
    {
      data := new Byte[length](_ => 0);
      next := null;
    }
  }

  /** The field recordWriteQueue of an SSL context. */
  class WriteQueue {
    var head: WaitingRecord?
    ghost var nodes: seq<WaitingRecord>

    constructor ()
      ensures Linked() && nodes == []
    {
      head, nodes := null, [];
    }

    /** The queue is the chain of `nodes`. */
    ghost predicate Linked()
      reads this, nodes
    {
      && (head == null <==> nodes == [])
      && (nodes != [] ==> head == nodes[0] && nodes[|nodes| - 1].next == null)
      && (forall i :: 0 <= i < |nodes| - 1 ==> nodes[i].next == nodes[i + 1])
      && (forall i, j :: 0 <= i < j < |nodes| ==> nodes[i] != nodes[j])
    }

    ghost function Contents(): (r: seq<seq<Byte>>)
      reads this, set n | n in nodes :: n.data
      ensures |r| == |nodes|
    {
      seq(|nodes|, i requires 0 <= i < |nodes| reads this, set n | n in nodes :: n.data => nodes[i].data[..])
    }

    /** Walks to the end of the chain and appends there. */
    method Enqueue(out: WaitingRecord)
      requires Linked() && out !in nodes && out.next == null
      modifies this, nodes
      ensures Linked() && nodes == old(nodes) + [out]
      ensures Contents() == old(Contents()) + [out.data[..]]
    {
      if head == null {
        head := out;
      } else {
        var queue: WaitingRecord := head;
        ghost var i := 0;
        while queue.next != null
          invariant 0 <= i < |nodes| && queue == nodes[i]
          invariant i < |nodes| - 1 ==> queue.next == nodes[i + 1]
          decreases |nodes| - i
        {
          queue := queue.next;
          i := i + 1;
        }
        queue.next := out;
      }
      nodes := nodes + [out];
    }
  }
}
