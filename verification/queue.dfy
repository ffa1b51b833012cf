/**
 * The string queue of `queue.c`: a singly linked list of heap-allocated
 * elements with head and tail pointers and a stored element count.
 *
 * The C heap is a value: a finite map from addresses to list elements.
 * NULL is `None`. A queue pointer is an `Option<Queue>`, so a NULL queue is
 * `None`. Every operation takes the heap and the queue and returns the ones
 * it leaves behind. The ghost sequence `addrs` lists the element addresses
 * from head to tail; `Valid` ties it to the pointers, and `Contents` reads
 * the queued strings off it.
 */
module LinkedQueue {
  import opened Wrappers
  import opened CString

  /** An address in the C heap. */
  type Ptr = nat

  /** `list_ele_t`: an owned copy of a string and the link to the next element. */
  datatype Node = Node(value: Text, next: Option<Ptr>)

  /** The list elements allocated by the queue, by address. */
  type Heap = map<Ptr, Node>

  /** `queue_t`: head and tail pointers and the element count. */
  datatype Queue = Queue(head: Option<Ptr>, tail: Option<Ptr>, size: nat)

  /** The reverse of a sequence. */
  function Rev<T>(s: seq<T>): (r: seq<T>)
    ensures |r| == |s|
    ensures forall i :: 0 <= i < |s| ==> r[i] == s[|s| - 1 - i]
  {
    seq(|s|, i requires 0 <= i < |s| => s[|s| - 1 - i])
  }

  function First(addrs: seq<Ptr>): Option<Ptr>
  {
    if addrs == [] then None else Some(addrs[0])
  }

  function Last(addrs: seq<Ptr>): Option<Ptr>
  {
    if addrs == [] then None else Some(addrs[|addrs| - 1])
  }

  /** The link the element at position `i` of the list must hold. */
  function Succ(addrs: seq<Ptr>, i: nat): Option<Ptr>
  {
    if i + 1 < |addrs| then Some(addrs[i + 1]) else None
  }

  ghost predicate Distinct(addrs: seq<Ptr>)
  {
    forall i, j :: 0 <= i < j < |addrs| ==> addrs[i] != addrs[j]
  }

  /**
   * `addrs` is an acyclic chain through `h`: its addresses are distinct,
   * they are exactly the allocated elements (nothing leaked), and each
   * element links to the next one, the last to NULL.
   */
  ghost predicate Chain(h: Heap, addrs: seq<Ptr>)
  {
    && Distinct(addrs)
    && (forall a :: a in h <==> a in addrs)
    && (forall i {:trigger h[addrs[i]]} :: 0 <= i < |addrs| ==> h[addrs[i]].next == Succ(addrs, i))
  }

  /**
   * The representation invariant. A NULL queue owns no elements. Otherwise
   * the elements form a chain, head is its first element, tail its last
   * (so both are NULL exactly when the queue is empty, and tail's link is
   * NULL), and the stored count is its length.
   */
  ghost predicate Valid(h: Heap, q: Option<Queue>, addrs: seq<Ptr>)
  {
    match q
    case None => addrs == [] && h == map[]
    case Some(qu) =>
      && Chain(h, addrs)
      && qu.head == First(addrs)
      && qu.tail == Last(addrs)
      && qu.size == |addrs|
  }

  /** The string held by the element at `a` (empty if `a` is not allocated). */
  function ValueAt(h: Heap, a: Ptr): Text
  {
    if a in h then h[a].value else []
  }

  /** The strings held by the elements at `addrs`, in order. */
  function Contents(h: Heap, addrs: seq<Ptr>): (c: seq<Text>)
    ensures |c| == |addrs|
    ensures forall i :: 0 <= i < |addrs| ==> c[i] == ValueAt(h, addrs[i])
  {
    seq(|addrs|, i requires 0 <= i < |addrs| => ValueAt(h, addrs[i]))
  }

  /** `q_new`: NULL when the allocation fails, otherwise an empty queue. */
  function New(allocOk: bool): (q: Option<Queue>)
    ensures allocOk <==> q.Some?
    ensures Valid(map[], q, [])
    ensures allocOk ==> q.value.head == None && q.value.tail == None && q.value.size == 0
  {
    if allocOk then Some(Queue(None, None, 0)) else None
  }

  /**
   * `q_size`: zero for a NULL or headless queue, otherwise the stored count;
   * the list is never walked. On a valid queue this is the number of queued strings.
   */
  function Size(q: Option<Queue>, ghost h: Heap, ghost addrs: seq<Ptr>): (r: int)
    requires Valid(h, q, addrs)
    ensures r == |Contents(h, addrs)|
  {
    if q.None? || q.value.head.None? then 0 else q.value.size
  }

  /** Putting a fresh element that links to the old first one in front keeps the chain. */
  lemma PrependChain(h: Heap, addrs: seq<Ptr>, p: Ptr, v: Text)
    requires Chain(h, addrs) && p !in h
    ensures Chain(h[p := Node(v, First(addrs))], [p] + addrs)
    ensures Contents(h[p := Node(v, First(addrs))], [p] + addrs) == [v] + Contents(h, addrs)
  {
    PrependDistinct(h, addrs, p);
    PrependLinks(h, addrs, p, v);
    PrependContents(h, addrs, p, v);
  }

  lemma PrependDistinct(h: Heap, addrs: seq<Ptr>, p: Ptr)
    requires Distinct(addrs) && (forall i :: 0 <= i < |addrs| ==> addrs[i] in h) && p !in h
    ensures Distinct([p] + addrs)
  {
    var addrs' := [p] + addrs;
    forall i, j | 0 <= i < j < |addrs'|
      ensures addrs'[i] != addrs'[j]
    {
      assert addrs'[j] == addrs[j - 1];
      if i > 0 {
        assert addrs'[i] == addrs[i - 1];
      }
    }
  }

  lemma PrependLinks(h: Heap, addrs: seq<Ptr>, p: Ptr, v: Text)
    requires Chain(h, addrs) && p !in h
    ensures forall i {:trigger h[p := Node(v, First(addrs))][([p] + addrs)[i]]} :: 0 <= i < |addrs| + 1 ==>
      h[p := Node(v, First(addrs))][([p] + addrs)[i]].next == Succ([p] + addrs, i)
  {
    var h', addrs' := h[p := Node(v, First(addrs))], [p] + addrs;
    forall i | 0 <= i < |addrs'|
      ensures h'[addrs'[i]].next == Succ(addrs', i)
    {
      if i > 0 {
        assert addrs'[i] == addrs[i - 1] && addrs[i - 1] in h;
      }
    }
  }

  lemma PrependContents(h: Heap, addrs: seq<Ptr>, p: Ptr, v: Text)
    requires (forall i :: 0 <= i < |addrs| ==> addrs[i] in h) && p !in h
    ensures Contents(h[p := Node(v, First(addrs))], [p] + addrs) == [v] + Contents(h, addrs)
  {
    var h', addrs' := h[p := Node(v, First(addrs))], [p] + addrs;
    forall i | 0 <= i < |addrs'|
      ensures Contents(h', addrs')[i] == ([v] + Contents(h, addrs))[i]
    {
      if i > 0 {
        assert addrs'[i] == addrs[i - 1] && addrs[i - 1] in h;
      }
    }
  }

  /** The heap after `p`, holding `v` with a NULL link, is hung off the last element `t`. */
  function Appended(h: Heap, t: Ptr, p: Ptr, v: Text): Heap
    requires t in h
  {
    h[p := Node(v, None)][t := h[t].(next := Some(p))]
  }

  /** Hanging a fresh element with a NULL link off the last one keeps the chain. */
  lemma AppendChain(h: Heap, addrs: seq<Ptr>, p: Ptr, v: Text)
    requires Chain(h, addrs) && p !in h && addrs != []
    ensures Chain(Appended(h, addrs[|addrs| - 1], p, v), addrs + [p])
  {
    var h'' := Appended(h, addrs[|addrs| - 1], p, v);
    var addrs' := addrs + [p];
    AppendDistinct(h, addrs, p);
    assert forall a :: a in h'' <==> a in addrs' by {
      forall a
        ensures a in h'' <==> a in addrs'
      {
        assert a in h'' <==> a in h || a == p;
        assert a in addrs' <==> a in addrs || a == p;
      }
    }
    AppendLinks(h, addrs, p, v);
  }

  lemma AppendDistinct(h: Heap, addrs: seq<Ptr>, p: Ptr)
    requires Chain(h, addrs) && p !in h
    ensures Distinct(addrs + [p])
  {
    var addrs' := addrs + [p];
    forall i, j | 0 <= i < j < |addrs'|
      ensures addrs'[i] != addrs'[j]
    {
      assert addrs'[i] == addrs[i] && addrs[i] in h;
    }
  }

  lemma AppendLinks(h: Heap, addrs: seq<Ptr>, p: Ptr, v: Text)
    requires Chain(h, addrs) && p !in h && addrs != []
    ensures var h'' := Appended(h, addrs[|addrs| - 1], p, v);
      forall i :: 0 <= i < |addrs| + 1 ==> h''[(addrs + [p])[i]].next == Succ(addrs + [p], i)
  {
    var t := addrs[|addrs| - 1];
    var h'' := Appended(h, t, p, v);
    var addrs' := addrs + [p];
    forall i | 0 <= i < |addrs'|
      ensures h''[addrs'[i]].next == Succ(addrs', i)
    {
      if i < |addrs| - 1 {
        assert addrs'[i] == addrs[i] && addrs[i] in h && addrs[i] != t;
        assert Succ(addrs', i) == Succ(addrs, i);
      } else if i == |addrs| - 1 {
        assert addrs'[i] == t && Succ(addrs', i) == Some(p);
      } else {
        assert addrs'[i] == p && p != t && Succ(addrs', i) == None;
      }
    }
  }

  /** Appending an element appends its string to the contents. */
  lemma AppendContents(h: Heap, addrs: seq<Ptr>, p: Ptr, v: Text)
    requires Chain(h, addrs) && p !in h && addrs != []
    ensures Contents(Appended(h, addrs[|addrs| - 1], p, v), addrs + [p]) == Contents(h, addrs) + [v]
  {
    var h'' := Appended(h, addrs[|addrs| - 1], p, v);
    var addrs' := addrs + [p];
    forall i | 0 <= i < |addrs'|
      ensures Contents(h'', addrs')[i] == (Contents(h, addrs) + [v])[i]
    {
      if i < |addrs| {
        assert addrs'[i] == addrs[i] && addrs[i] in h && addrs[i] != p;
      }
    }
  }

  /**
   * The linking part of `q_insert_head` on a fresh element `p` holding `v`:
   * the old head becomes `p`'s successor, and an empty queue gets `p` as its tail.
   */
  function LinkHead(h: Heap, q: Queue, p: Ptr, v: Text, ghost addrs: seq<Ptr>): (r: (Heap, Queue))
    requires p !in h
    ensures Valid(h, Some(q), addrs) ==>
      && Valid(r.0, Some(r.1), [p] + addrs)
      && Contents(r.0, [p] + addrs) == [v] + Contents(h, addrs)
  {
    var h' := h[p := Node(v, q.head)];
    var q' := q.(head := Some(p));
    assert Valid(h, Some(q), addrs) ==>
      Chain(h', [p] + addrs) && Contents(h', [p] + addrs) == [v] + Contents(h, addrs) by {
      if Valid(h, Some(q), addrs) {
        PrependChain(h, addrs, p, v);
      }
    }
    var q'' := if q'.tail.None? then q'.(tail := q'.head) else q';
    (h', q''.(size := q''.size + 1))
  }

  /**
   * The linking part of `q_insert_tail`: `p` gets a NULL link and is hung
   * off the current tail, found through the tail pointer; the only existing
   * element written is the old tail.
   */
  function LinkTail(h: Heap, q: Queue, p: Ptr, v: Text, ghost addrs: seq<Ptr>): (r: (Heap, Queue))
    requires p !in h
    requires q.tail.Some? ==> q.tail.value in h
    ensures forall a :: a in h && Some(a) != q.tail ==> a in r.0 && r.0[a] == h[a]
    ensures Valid(h, Some(q), addrs) ==>
      && Valid(r.0, Some(r.1), addrs + [p])
      && Contents(r.0, addrs + [p]) == Contents(h, addrs) + [v]
  {
    if q.tail.Some? then
      var h' := Appended(h, q.tail.value, p, v);
      assert Valid(h, Some(q), addrs) ==>
        Chain(h', addrs + [p]) && Contents(h', addrs + [p]) == Contents(h, addrs) + [v] by {
        if Valid(h, Some(q), addrs) {
          AppendChain(h, addrs, p, v);
          AppendContents(h, addrs, p, v);
        }
      }
      (h', q.(tail := Some(p), size := q.size + 1))
    else
      var h' := h[p := Node(v, None)];
      assert Valid(h, Some(q), addrs) ==>
        Chain(h', addrs + [p]) && Contents(h', addrs + [p]) == Contents(h, addrs) + [v] by {
        if Valid(h, Some(q), addrs) {
          PrependChain(h, addrs, p, v);
          assert [p] + addrs == addrs + [p];
        }
      }
      (h', q.(head := Some(p), tail := Some(p), size := q.size + 1))
  }

  /** Dropping the first element (and freeing it) leaves the rest a chain. */
  lemma DropChain(h: Heap, addrs: seq<Ptr>)
    requires Chain(h, addrs) && addrs != []
    ensures Chain(h - {addrs[0]}, addrs[1..])
    ensures Contents(h - {addrs[0]}, addrs[1..]) == Contents(h, addrs)[1..]
  {
    DropKeys(h, addrs);
    DropLinks(h, addrs);
    assert forall i :: 0 <= i < |addrs| ==> addrs[i] in h;
    DropContents(h, addrs);
  }

  lemma DropKeys(h: Heap, addrs: seq<Ptr>)
    requires Chain(h, addrs) && addrs != []
    ensures forall a :: a in h - {addrs[0]} <==> a in addrs[1..]
  {
    var h', addrs' := h - {addrs[0]}, addrs[1..];
    assert addrs == [addrs[0]] + addrs';
    forall a
      ensures a in h' <==> a in addrs'
    {
      if a in addrs' {
        var i :| 0 <= i < |addrs'| && addrs'[i] == a;
        assert addrs[i + 1] == a;
      }
    }
  }

  lemma DropLinks(h: Heap, addrs: seq<Ptr>)
    requires Chain(h, addrs) && addrs != []
    ensures Distinct(addrs[1..])
    ensures forall i :: 0 <= i < |addrs| - 1 ==>
      addrs[1..][i] in h - {addrs[0]} && (h - {addrs[0]})[addrs[1..][i]].next == Succ(addrs[1..], i)
  {
    var h', addrs' := h - {addrs[0]}, addrs[1..];
    forall i | 0 <= i < |addrs'|
      ensures addrs'[i] in h' && h'[addrs'[i]].next == Succ(addrs', i)
    {
      assert addrs'[i] == addrs[i + 1] && addrs[i + 1] != addrs[0] && addrs[i + 1] in h;
      assert Succ(addrs', i) == Succ(addrs, i + 1);
    }
  }

  lemma DropContents(h: Heap, addrs: seq<Ptr>)
    requires Distinct(addrs) && addrs != []
    requires forall i :: 0 <= i < |addrs| ==> addrs[i] in h
    ensures Contents(h - {addrs[0]}, addrs[1..]) == Contents(h, addrs)[1..]
  {
    var h', addrs' := h - {addrs[0]}, addrs[1..];
    forall i | 0 <= i < |addrs'|
      ensures Contents(h', addrs')[i] == Contents(h, addrs)[i + 1]
    {
      assert addrs'[i] == addrs[i + 1] && addrs[i + 1] != addrs[0] && addrs[i + 1] in h;
    }
  }

  /**
   * The unlinking part of `q_remove_head` with the tail reset that `queue.c`
   * leaves out: the head moves to its successor, the old head is freed, and
   * when that empties the queue the tail becomes NULL as well.
   */
  function PopHead(h: Heap, q: Queue, ghost addrs: seq<Ptr>): (r: (Heap, Queue))
    requires Valid(h, Some(q), addrs) && q.head.Some?
    ensures Valid(r.0, Some(r.1), addrs[1..])
    ensures Contents(r.0, addrs[1..]) == Contents(h, addrs)[1..]
  {
    var a := q.head.value;
    var next := h[a].next;
    DropChain(h, addrs);
    var q' := q.(head := next, size := q.size - 1);
    (h - {a}, if next.None? then q'.(tail := None) else q')
  }

  /**
   * The unlinking part of `q_remove_head` as `queue.c` has it: the tail
   * pointer is never touched. While at least two elements are queued this
   * is the corrected `PopHead`; removing the last one leaves the tail
   * pointing at the freed element.
   */
  function PopHeadAsWritten(h: Heap, q: Queue, ghost addrs: seq<Ptr>): (r: (Heap, Queue))
    requires Valid(h, Some(q), addrs) && q.head.Some?
    ensures |addrs| >= 2 ==> r == PopHead(h, q, addrs)
    ensures |addrs| == 1 ==> r.1.head == None && r.1.tail == Some(addrs[0]) && addrs[0] !in r.0
  {
    var a := q.head.value;
    var r := (h - {a}, q.(head := h[a].next, size := q.size - 1));
    assert |addrs| >= 2 ==> r == PopHead(h, q, addrs) by {
      if |addrs| >= 2 {
        UnlinkKeepingTail(h, q, addrs);
      }
    }
    r
  }

  /** With two or more elements queued, leaving the tail alone is correct. */
  lemma UnlinkKeepingTail(h: Heap, q: Queue, addrs: seq<Ptr>)
    requires Valid(h, Some(q), addrs) && q.head.Some? && |addrs| >= 2
    ensures (h - {q.head.value}, q.(head := h[q.head.value].next, size := q.size - 1)) == PopHead(h, q, addrs)
  {
  }

  /**
   * Removing the only element with the unlinking of `queue.c` leaves a state
   * that no list of elements makes valid: its tail is a dangling pointer.
   * `q_insert_tail` then writes through that freed element and never sets
   * the head, and `q_insert_head` keeps the dangling tail next to the new head.
   */
  lemma DanglingTailAfterLastRemoval(h: Heap, q: Queue, addrs: seq<Ptr>, p: Ptr, v: Text)
    requires Valid(h, Some(q), addrs) && |addrs| == 1
    requires p != addrs[0]
    ensures var (h', q') := PopHeadAsWritten(h, q, addrs);
      && (forall addrs' :: !Valid(h', Some(q'), addrs'))
      && q'.tail.Some? && q'.tail.value !in h'
      && p !in h'
      && (forall addrs' :: !Valid(LinkHead(h', q', p, v, []).0, Some(LinkHead(h', q', p, v, []).1), addrs'))
  {
    var (h', q') := PopHeadAsWritten(h, q, addrs);
    assert h' == map[] by {
      assert forall a :: a !in h';
    }
    var (h'', q'') := LinkHead(h', q', p, v, []);
    assert q''.head == Some(p) && q''.tail == Some(addrs[0]);
  }

  /** With the tail reset, removing the only element gives back the state of a fresh queue. */
  lemma RemoveLastResetsToEmpty(h: Heap, q: Queue, addrs: seq<Ptr>)
    requires Valid(h, Some(q), addrs) && |addrs| == 1
    ensures PopHead(h, q, addrs) == (map[], New(true).value)
  {
    var (h', q') := PopHead(h, q, addrs);
    assert h' == map[] by {
      assert forall a :: a !in h';
    }
  }

  /**
   * `q_insert_head`: fails without touching anything when `q` is NULL, when
   * the element cannot be allocated (`node` is None), or when the copy of
   * the string cannot be allocated (`strOk` is false; the element already
   * obtained is released). Otherwise the string's content is queued in front.
   */
  method InsertHead(h: Heap, q: Option<Queue>, s: seq<char>, node: Option<Ptr>, strOk: bool, ghost addrs: seq<Ptr>)
    returns (ok: bool, h': Heap, q': Option<Queue>)
    requires Valid(h, q, addrs)
    requires '\0' in s
    requires node.Some? ==> node.value !in h
    ensures ok <==> q.Some? && node.Some? && strOk
    ensures !ok ==> h' == h && q' == q
    ensures ok ==> Valid(h', q', [node.value] + addrs)
    ensures ok ==> Contents(h', [node.value] + addrs) == [Content(s)] + Contents(h, addrs)
  {
    if q.None? || node.None? {
      return false, h, q;
    }
    var p := node.value;
    var h1 := h[p := Node([], None)];
    var n := StringLen(s);
    if !strOk {
      assert h1 - {p} == h;
      return false, h1 - {p}, q;
    }
    assert s[..n - 1] == Content(s);
    // Linking writes every field of the element at `p`, overwriting what `h1` holds there.
    var r := LinkHead(h, q.value, p, s[..n - 1], addrs);
    ok, h', q' := true, r.0, Some(r.1);
  }

  /**
   * `q_insert_tail`: the same failure cases as `q_insert_head`; on success
   * the string's content is queued at the back, and of the existing
   * elements only the old tail is written.
   */
  method InsertTail(h: Heap, q: Option<Queue>, s: seq<char>, node: Option<Ptr>, strOk: bool, ghost addrs: seq<Ptr>)
    returns (ok: bool, h': Heap, q': Option<Queue>)
    requires Valid(h, q, addrs)
    requires '\0' in s
    requires node.Some? ==> node.value !in h
    ensures ok <==> q.Some? && node.Some? && strOk
    ensures !ok ==> h' == h && q' == q
    ensures ok ==> Valid(h', q', addrs + [node.value])
    ensures ok ==> Contents(h', addrs + [node.value]) == Contents(h, addrs) + [Content(s)]
    ensures ok ==> forall a :: a in h && Some(a) != q.value.tail ==> a in h' && h'[a] == h[a]
  {
    if q.None? || node.None? {
      return false, h, q;
    }
    var p := node.value;
    var h1 := h[p := Node([], None)];
    var n := StringLen(s);
    if !strOk {
      assert h1 - {p} == h;
      return false, h1 - {p}, q;
    }
    assert s[..n - 1] == Content(s);
    // Linking writes every field of the element at `p`, overwriting what `h1` holds there.
    var r := LinkTail(h, q.value, p, s[..n - 1], addrs);
    ok, h', q' := true, r.0, Some(r.1);
  }

  /**
   * `q_remove_head`: fails without touching anything on a NULL or empty
   * queue. Otherwise the first element is unlinked and freed, and when a
   * buffer is supplied it receives the removed string cut to `bufsize - 1`
   * characters and terminated; bytes after the terminator are left alone.
   */
  method RemoveHead(h: Heap, q: Option<Queue>, sp: Option<seq<char>>, bufsize: nat, ghost addrs: seq<Ptr>)
    returns (ok: bool, h': Heap, q': Option<Queue>, sp': Option<seq<char>>)
    requires Valid(h, q, addrs)
    requires sp.Some? ==> 1 <= bufsize <= |sp.value|
    ensures ok <==> Contents(h, addrs) != []
    ensures !ok ==> h' == h && q' == q && sp' == sp
    ensures ok ==> Valid(h', q', addrs[1..]) && Contents(h', addrs[1..]) == Contents(h, addrs)[1..]
    ensures q'.Some? <==> q.Some?
    ensures sp.None? <==> sp'.None?
    ensures ok && sp.Some? ==>
      var v := Contents(h, addrs)[0];
      && |sp'.value| == |sp.value|
      && Content(sp'.value) == v[..Min(|v|, bufsize - 1)]
      && forall i :: Min(|v|, bufsize - 1) < i < |sp.value| ==> sp'.value[i] == sp.value[i]
  {
    if q.None? || q.value.head.None? {
      return false, h, q, sp;
    }
    var v := h[q.value.head.value].value;
    var r := PopHead(h, q.value, addrs);
    if sp.Some? {
      var out := CopyOut(v, sp.value, bufsize);
      sp' := Some(out);
    } else {
      sp' := None;
    }
    ok, h', q' := true, r.0, Some(r.1);
  }

  /**
   * A valid non-NULL queue with no elements is exactly what `q_new`
   * returns over an empty heap, so a queue emptied by `RemoveHead` behaves
   * like a fresh one.
   */
  lemma EmptyIsFresh(h: Heap, q: Option<Queue>)
    requires Valid(h, q, []) && q.Some?
    ensures h == map[] && q == New(true)
  {
  }

  /** Reversing a sequence twice gives it back. */
  lemma RevRev<T>(s: seq<T>)
    ensures Rev(Rev(s)) == s
  {
  }

  /**
   * Every element of the chain `addrs` through `h` is kept in `h'` with its
   * string, but links to its predecessor instead of its successor.
   */
  ghost predicate LinkedBackwards(h: Heap, h': Heap, addrs: seq<Ptr>)
  {
    && (forall a :: a in h' <==> a in h)
    && (forall i :: 0 <= i < |addrs| ==> addrs[i] in h && addrs[i] in h')
    && (forall i {:trigger h'[addrs[i]]} :: 0 <= i < |addrs| ==>
          h'[addrs[i]] == h[addrs[i]].(next := if i == 0 then None else Some(addrs[i - 1])))
  }

  /** Turning every link around makes the reversed address list a chain. */
  lemma ReversedChain(h: Heap, h': Heap, addrs: seq<Ptr>)
    requires Chain(h, addrs) && LinkedBackwards(h, h', addrs)
    ensures Chain(h', Rev(addrs))
  {
    ReversedDistinct(addrs);
    ReversedKeys(h, h', addrs);
    ReversedLinks(h, h', addrs);
  }

  lemma ReversedDistinct(addrs: seq<Ptr>)
    requires Distinct(addrs)
    ensures Distinct(Rev(addrs))
  {
    var n, r := |addrs|, Rev(addrs);
    forall i, j | 0 <= i < j < n
      ensures r[i] != r[j]
    {
      assert r[i] == addrs[n - 1 - i] && r[j] == addrs[n - 1 - j];
    }
  }

  lemma ReversedKeys(h: Heap, h': Heap, addrs: seq<Ptr>)
    requires forall a :: a in h <==> a in addrs
    requires forall a :: a in h' <==> a in h
    ensures forall a :: a in h' <==> a in Rev(addrs)
  {
    var n, r := |addrs|, Rev(addrs);
    forall a
      ensures a in h' <==> a in r
    {
      if a in addrs {
        var i :| 0 <= i < n && addrs[i] == a;
        assert r[n - 1 - i] == a;
      }
      if a in r {
        var j :| 0 <= j < n && r[j] == a;
        assert addrs[n - 1 - j] == a;
      }
    }
  }

  lemma ReversedLinks(h: Heap, h': Heap, addrs: seq<Ptr>)
    requires LinkedBackwards(h, h', addrs)
    ensures forall j {:trigger h'[Rev(addrs)[j]]} :: 0 <= j < |addrs| ==>
      Rev(addrs)[j] in h' && h'[Rev(addrs)[j]].next == Succ(Rev(addrs), j)
  {
    var n, r := |addrs|, Rev(addrs);
    forall j | 0 <= j < n
      ensures r[j] in h' && h'[r[j]].next == Succ(r, j)
    {
      var i := n - 1 - j;
      assert r[j] == addrs[i];
      if j + 1 < n {
        assert r[j + 1] == addrs[i - 1];
      }
    }
  }

  /** Turning every link around reverses the contents read along the reversed list. */
  lemma ReversedContents(h: Heap, h': Heap, addrs: seq<Ptr>)
    requires forall i :: 0 <= i < |addrs| ==>
      addrs[i] in h && addrs[i] in h' && h'[addrs[i]].value == h[addrs[i]].value
    ensures Contents(h', Rev(addrs)) == Rev(Contents(h, addrs))
  {
    var n, r := |addrs|, Rev(addrs);
    var c, c' := Contents(h, addrs), Contents(h', r);
    forall j | 0 <= j < n
      ensures c'[j] == Rev(c)[j]
    {
      assert r[j] == addrs[n - 1 - j];
    }
  }

  /**
   * The loop of `q_reverse`: walks the list from `head`, pointing each
   * element back at the one visited before it, and returns the last element
   * visited (the new head).
   */
  method RelinkBackwards(h: Heap, head: Option<Ptr>, ghost addrs: seq<Ptr>) returns (h': Heap, prev: Option<Ptr>)
    requires Distinct(addrs) && head == First(addrs)
    requires forall i :: 0 <= i < |addrs| ==> addrs[i] in h
    requires forall i {:trigger h[addrs[i]]} :: 0 <= i < |addrs| ==> h[addrs[i]].next == Succ(addrs, i)
    ensures prev == Last(addrs)
    ensures LinkedBackwards(h, h', addrs)
  {
    h' := h;
    var cur := head;
    prev := None;
    ghost var k := 0;
    ghost var n := |addrs|;
    while cur.Some?
      invariant 0 <= k <= n
      invariant cur == (if k < n then Some(addrs[k]) else None)
      invariant prev == (if k == 0 then None else Some(addrs[k - 1]))
      invariant forall a :: a in h' <==> a in h
      invariant forall i {:trigger h'[addrs[i]]} :: k <= i < n ==> h'[addrs[i]] == h[addrs[i]]
      invariant forall i {:trigger h'[addrs[i]]} :: 0 <= i < k ==>
        h'[addrs[i]] == h[addrs[i]].(next := if i == 0 then None else Some(addrs[i - 1]))
      decreases n - k
    {
      var a := cur.value;
      assert a == addrs[k] && h'[addrs[k]] == h[addrs[k]];
      var next := h'[a].next;
      h' := h'[a := h'[a].(next := prev)];
      prev := cur;
      cur := next;
      k := k + 1;
    }
  }

  /**
   * `q_reverse`: nothing happens to a NULL or empty queue. Otherwise every
   * link is turned around in one pass and head and tail are swapped; no
   * element is allocated or freed and no string moves.
   */
  method Reverse(h: Heap, q: Option<Queue>, ghost addrs: seq<Ptr>) returns (h': Heap, q': Option<Queue>)
    requires Valid(h, q, addrs)
    ensures Valid(h', q', Rev(addrs))
    ensures Contents(h', Rev(addrs)) == Rev(Contents(h, addrs))
    ensures h'.Keys == h.Keys && forall a :: a in h ==> h'[a].value == h[a].value
    ensures q.Some? <==> q'.Some?
    ensures q.Some? && addrs != [] ==> q'.value.head == q.value.tail && q'.value.tail == q.value.head
    ensures |addrs| <= 1 ==> h' == h && q' == q
  {
    if q.None? || q.value.head.None? {
      return h, q;
    }
    var prev;
    h', prev := RelinkBackwards(h, q.value.head, addrs);
    q' := Some(q.value.(tail := q.value.head, head := prev));
    ReversedQueue(h, addrs, h');
  }

  /** Everything `q_reverse` promises follows once every link has been turned around. */
  lemma ReversedQueue(h: Heap, addrs: seq<Ptr>, h': Heap)
    requires Chain(h, addrs) && addrs != []
    requires LinkedBackwards(h, h', addrs)
    ensures Valid(h', Some(Queue(Last(addrs), First(addrs), |addrs|)), Rev(addrs))
    ensures Contents(h', Rev(addrs)) == Rev(Contents(h, addrs))
    ensures h'.Keys == h.Keys && forall a :: a in h ==> h'[a].value == h[a].value
    ensures |addrs| == 1 ==> h' == h
  {
    ReversedChain(h, h', addrs);
    ReversedContents(h, h', addrs);
    ReversedKeepsValues(h, h', addrs);
    assert First(Rev(addrs)) == Last(addrs) && Last(Rev(addrs)) == First(addrs);
    if |addrs| == 1 {
      ReversedSingleton(h, h', addrs);
    }
  }

  lemma ReversedKeepsValues(h: Heap, h': Heap, addrs: seq<Ptr>)
    requires Chain(h, addrs) && LinkedBackwards(h, h', addrs)
    ensures h'.Keys == h.Keys && forall a :: a in h ==> h'[a].value == h[a].value
  {
    forall a | a in h
      ensures h'[a].value == h[a].value
    {
      var i :| 0 <= i < |addrs| && addrs[i] == a;
    }
  }

  lemma ReversedSingleton(h: Heap, h': Heap, addrs: seq<Ptr>)
    requires Chain(h, addrs) && LinkedBackwards(h, h', addrs) && |addrs| == 1
    ensures h' == h
  {
    assert h[addrs[0]].next == None;
    forall a | a in h
      ensures h'[a] == h[a]
    {
      assert a == addrs[0];
    }
  }

  /** Two valid queues over the same address list holding the same strings are the same state. */
  lemma ValidDeterminesState(h1: Heap, q1: Option<Queue>, h2: Heap, q2: Option<Queue>, addrs: seq<Ptr>)
    requires Valid(h1, q1, addrs) && Valid(h2, q2, addrs)
    requires q1.Some? <==> q2.Some?
    requires Contents(h1, addrs) == Contents(h2, addrs)
    ensures h1 == h2 && q1 == q2
  {
    forall a | a in h1
      ensures a in h2 && h1[a] == h2[a]
    {
      if q1.Some? {
        var i :| 0 <= i < |addrs| && addrs[i] == a;
        assert Contents(h1, addrs)[i] == Contents(h2, addrs)[i];
      }
    }
  }

  /** Reversing twice restores the heap and the queue exactly. */
  method ReverseTwice(h: Heap, q: Option<Queue>, ghost addrs: seq<Ptr>) returns (h2: Heap, q2: Option<Queue>)
    requires Valid(h, q, addrs)
    ensures h2 == h && q2 == q
  {
    var h1, q1 := Reverse(h, q, addrs);
    h2, q2 := Reverse(h1, q1, Rev(addrs));
    RevRev(addrs);
    RevRev(Contents(h, addrs));
    ValidDeterminesState(h, q, h2, q2, addrs);
  }

  /**
   * `q_free`: walks the list releasing every element (and its string), then
   * the queue itself; nothing is left allocated.
   */
  method Free(h: Heap, q: Option<Queue>, ghost addrs: seq<Ptr>) returns (h': Heap)
    requires Valid(h, q, addrs)
    ensures h' == map[]
  {
    h' := h;
    if q.None? {
      return;
    }
    var cur := q.value.head;
    ghost var k := 0;
    while cur.Some?
      invariant 0 <= k <= |addrs|
      invariant cur == (if k < |addrs| then Some(addrs[k]) else None)
      invariant forall i :: 0 <= i < |addrs| ==> (addrs[i] in h' <==> k <= i)
      invariant forall a :: a in h' ==> a in h && h'[a] == h[a]
      decreases |addrs| - k
    {
      FreeStep(h, addrs, h', k);
      var next := h'[cur.value].next;
      h' := h' - {cur.value};
      cur := next;
      k := k + 1;
    }
    FreeDone(h, addrs, h');
  }

  /** One step of the release loop: the element at position `k` links to position `k + 1`, and freeing it leaves the ones after it. */
  lemma FreeStep(h: Heap, addrs: seq<Ptr>, h': Heap, k: nat)
    requires Chain(h, addrs) && k < |addrs|
    requires forall i :: 0 <= i < |addrs| ==> (addrs[i] in h' <==> k <= i)
    requires forall a :: a in h' ==> a in h && h'[a] == h[a]
    ensures addrs[k] in h' && h'[addrs[k]].next == Succ(addrs, k)
    ensures forall i :: 0 <= i < |addrs| ==> (addrs[i] in h' - {addrs[k]} <==> k + 1 <= i)
  {
    assert h[addrs[k]].next == Succ(addrs, k);
  }

  /** Once every listed element is gone, nothing is left. */
  lemma FreeDone(h: Heap, addrs: seq<Ptr>, h': Heap)
    requires Chain(h, addrs)
    requires forall i :: 0 <= i < |addrs| ==> addrs[i] !in h'
    requires forall a :: a in h' ==> a in h
    ensures h' == map[]
  {
    assert h'.Keys == {};
  }
}
