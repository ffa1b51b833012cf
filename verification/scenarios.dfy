/**
 * Call sequences a test harness drives through the queue, with the results
 * the queue's contracts imply for them. Allocation always succeeds here and
 * hands out the addresses 1, 2, 3, ...
 */
module Scenarios {
  import opened Wrappers
  import opened CString
  import opened LinkedQueue

  /** Queues "a" and then "b" at the tail of a fresh queue. */
  method TwoAtTail() returns (h: Heap, q: Option<Queue>)
    ensures Valid(h, q, [1, 2]) && q.Some?
    ensures Contents(h, [1, 2]) == ["a", "b"]
  {
    q := New(true);
    h := map[];
    var ok;
    assert Content("a\0") == "a" && Content("b\0") == "b";
    ok, h, q := InsertTail(h, q, "a\0", Some(1), true, []);
    assert [] + [1] == [1];
    ok, h, q := InsertTail(h, q, "b\0", Some(2), true, [1]);
    assert [1] + [2] == [1, 2];
  }

  /** Two strings queued at the tail come out of the head in insertion order. */
  method FifoOrder() returns (size: int, first: seq<char>, second: seq<char>)
    ensures size == 2
    ensures Content(first) == "a" && Content(second) == "b"
  {
    var h, q := TwoAtTail();
    size := Size(q, h, [1, 2]);
    var ok, buf;
    ok, h, q, buf := RemoveHead(h, q, Some("zzzz"), 4, [1, 2]);
    assert [1, 2][1..] == [2];
    first := buf.value;
    assert Contents(h, [2]) == ["b"];
    ok, h, q, buf := RemoveHead(h, q, Some("zzzz"), 4, [2]);
    second := buf.value;
  }

  /** After a reversal the head is the string queued last. */
  method ReverseThenRemove() returns (first: seq<char>)
    ensures Content(first) == "b"
  {
    var h, q := TwoAtTail();
    var rev: seq<Text> := ["b", "a"];
    assert Rev(Contents(h, [1, 2])) == rev;
    h, q := Reverse(h, q, [1, 2]);
    var ok, buf;
    ok, h, q, buf := RemoveHead(h, q, Some("zzzz"), 4, Rev([1, 2]));
    first := buf.value;
  }

  /** Two strings queued at the head come out in the reverse order. */
  method LifoOrder() returns (first: seq<char>, second: seq<char>)
    ensures Content(first) == "y" && Content(second) == "x"
  {
    var q := New(true);
    var h: Heap := map[];
    var ok;
    assert Content("x\0") == "x" && Content("y\0") == "y";
    ok, h, q := InsertHead(h, q, "x\0", Some(1), true, []);
    assert [1] + [] == [1];
    ok, h, q := InsertHead(h, q, "y\0", Some(2), true, [1]);
    assert [2] + [1] == [2, 1];
    assert Contents(h, [2, 1]) == ["y", "x"];
    var buf;
    ok, h, q, buf := RemoveHead(h, q, Some("zzzz"), 4, [2, 1]);
    assert [2, 1][1..] == [1];
    first := buf.value;
    assert Contents(h, [1]) == ["x"];
    ok, h, q, buf := RemoveHead(h, q, Some("zzzz"), 4, [1]);
    second := buf.value;
  }

  /** A one-byte buffer only has room for the terminator. */
  method OneByteBuffer() returns (ok: bool, out: seq<char>, size: int)
    ensures ok && out == "\0" && size == 0
  {
    var q := New(true);
    var h: Heap := map[];
    ok, h, q := InsertHead(h, q, "x\0", Some(1), true, []);
    var buf;
    ok, h, q, buf := RemoveHead(h, q, Some("z"), 1, [1]);
    out := buf.value;
    size := Size(q, h, []);
  }

  /**
   * Queues "a" at the tail and removes it again with the unlinking of
   * `queue.c`: the queue is left headless with its tail on the freed
   * element, a state no list of elements makes valid.
   */
  method LastRemovalAsWritten() returns (h: Heap, q: Queue)
    ensures q.head == None && q.tail == Some(1) && 1 !in h
    ensures forall addrs :: !Valid(h, Some(q), addrs)
  {
    var h0, q0 := map[], New(true);
    var ok;
    ok, h0, q0 := InsertTail(h0, q0, "a\0", Some(1), true, []);
    assert [] + [1] == [1];
    DanglingTailAfterLastRemoval(h0, q0.value, [1], 2, "b");
    var r := PopHeadAsWritten(h0, q0.value, [1]);
    h, q := r.0, r.1;
  }

  /**
   * Queues "a" at the tail, removes it, and queues "b" at the tail: the
   * emptied queue is a fresh one again, so the second insertion succeeds
   * and "b" is the only string queued.
   */
  method RemoveLastThenInsert() returns (emptied: bool, inserted: bool, size: int, first: seq<char>)
    ensures emptied && inserted && size == 1 && Content(first) == "b"
  {
    var q := New(true);
    var h: Heap := map[];
    var ok, buf;
    assert Content("a\0") == "a" && Content("b\0") == "b";
    ok, h, q := InsertTail(h, q, "a\0", Some(1), true, []);
    assert [] + [1] == [1];
    ok, h, q, buf := RemoveHead(h, q, None, 0, [1]);
    emptied := h == map[] && q == New(true);
    inserted, h, q := InsertTail(h, q, "b\0", Some(2), true, []);
    assert [] + [2] == [2];
    size := Size(q, h, [2]);
    ok, h, q, buf := RemoveHead(h, q, Some("zz"), 2, [2]);
    first := buf.value;
  }
}
