# String queue over a singly linked list

A Dafny model of the queue in `0_CProgrammingLab/lab0-solution/queue.c`, the
CMU 15-213 C programming lab. The queue stores owned copies of NUL-terminated
strings in a singly linked list. It keeps head and tail pointers and an element
count. It supports insertion at either end, removal at the head into a bounded
caller buffer, a constant-time size query, in-place reversal and release of
all storage.

## How the C program is represented

- **Heap.** The C heap is a value, `Heap = map<Ptr, Node>`, from addresses to
  list elements (`list_ele_t`). NULL is `Option.None`.
- **Queue pointer.** A `queue_t *` is an `Option<Queue>`; `None` is a NULL queue.
- **State passing.** Every operation takes the heap and the queue and returns
  the ones it leaves behind.
- **Node list.** A ghost sequence `addrs` lists the element addresses from head
  to tail. `LinkedQueue.Valid` ties it to the pointers. The addresses are
  distinct (the list is acyclic), and they are exactly the allocated elements,
  so no element leaks. Each element links to the next and the last one links to
  NULL. Head is the first element and tail the last, both NULL exactly when the
  queue is empty, and the stored count is the length. `LinkedQueue.Contents`
  reads the queued strings off the list.
- **Allocation.** `malloc` is a parameter. `node: Option<Ptr>` is the element
  allocation: `None` means failure, otherwise it is a fresh address. `strOk`
  says whether the string-copy allocation succeeds.
- **Strings.** Callers pass C strings (`seq<char>` containing a `'\0'`).
  Elements store their text without the terminator (`CString.Text`). The
  terminator appears only where the C code handles it: in `string_len`, in the
  copy `strcpy` makes, and in the output buffer of `q_remove_head`.
- **Modules.** `CString` holds the string helpers, `LinkedQueue` the queue
  operations, and `Scenarios` call sequences a test harness would make.
  `Wrappers` holds `Option` and `Min`.

## Model

| member | source | states |
|---|---|---|
| `CString.StringLen` | 0_CProgrammingLab/lab0-solution/queue.c:218-225 | returns the index of the first NUL plus one. That is the content length plus one, and the first that many bytes are exactly the content and its terminator, so the buffer allocated with this size holds the copy |
| `CString.TerminatedRoundTrip` | 0_CProgrammingLab/lab0-solution/queue.c:83-84 | a stored text written out with its terminator reads back as the same text |
| `CString.CopyOut` | 0_CProgrammingLab/lab0-solution/queue.c:157-165 | for `bufsize >= 1`, the buffer read as a C string is the removed text cut to `min(len, bufsize-1)` characters (the whole text when it fits). The terminator sits at that index, every byte after it is unchanged, and the buffer length is unchanged |
| `CString.TerminatorIndexAsWritten` | 0_CProgrammingLab/lab0-solution/queue.c:159-164 | the copy loop, with its bound computed in `size_t`, writes the terminator at index `min(len, bufsize-1)`, inside the buffer, when `bufsize >= 1`. When `bufsize == 0` it writes it at index `len`, outside the buffer |
| `LinkedQueue.New` | 0_CProgrammingLab/lab0-solution/queue.c:25-37 | NULL exactly when allocation fails. Otherwise an empty valid queue with NULL head and tail and no contents |
| `LinkedQueue.Size` | 0_CProgrammingLab/lab0-solution/queue.c:177-185 | on any valid queue, NULL included, the result equals the number of queued strings |
| `LinkedQueue.LinkHead` | 0_CProgrammingLab/lab0-solution/queue.c:84-92 | linking a fresh element in front of a valid queue gives a valid queue whose list is the new element followed by the old list, and whose contents are the new string followed by the old contents. On an empty queue the new element is also the tail |
| `LinkedQueue.LinkTail` | 0_CProgrammingLab/lab0-solution/queue.c:122-136 | on a valid queue the result is valid with the fresh element appended to the list and its string appended to the contents. The only existing element that changes is the old tail, found through the tail pointer without walking the list |
| `LinkedQueue.InsertHead` | 0_CProgrammingLab/lab0-solution/queue.c:65-95 | succeeds exactly when `q` is non-NULL and both allocations succeed. On failure the heap and queue are unchanged. An element allocated before a failed string allocation is put into the heap and released again, so it is not left behind. On success the contents become `[content of s] + old contents` |
| `LinkedQueue.InsertTail` | 0_CProgrammingLab/lab0-solution/queue.c:104-139 | the same success condition and unchanged state on failure. On success the contents become `old contents + [content of s]`, and only the old tail element is written |
| `LinkedQueue.PopHead` | 0_CProgrammingLab/lab0-solution/queue.c:153-167 | unlinking and freeing the head of a non-empty valid queue (with the tail reset when the queue empties) gives a valid queue over the remaining list. Its contents are the old contents without the first string |
| `LinkedQueue.PopHeadAsWritten` | 0_CProgrammingLab/lab0-solution/queue.c:153-169 | the unlinking of `queue.c` equals `PopHead` while two or more elements are queued. On a one-element queue it leaves a NULL head with the tail still on the freed element |
| `LinkedQueue.DanglingTailAfterLastRemoval` | 0_CProgrammingLab/lab0-solution/queue.c:149-171 | after `queue.c` removes the only element, no list of elements makes the state valid, and the tail points at a freed element, which `q_insert_tail` would write through. Inserting at the head at another address still gives a state that no list makes valid |
| `LinkedQueue.RemoveLastResetsToEmpty` | 0_CProgrammingLab/lab0-solution/queue.c:149-171 | with the tail reset, removing the only element leaves exactly the state of a freshly created queue: empty heap, NULL head and tail, count 0 |
| `LinkedQueue.RemoveHead` | 0_CProgrammingLab/lab0-solution/queue.c:149-171 | fails with nothing changed exactly when the queue is NULL or empty. Otherwise the result is valid, its contents are the old contents without the first string, and a supplied buffer holds the first string cut to `bufsize-1` characters and terminated, with every byte after the terminator untouched. A NULL buffer stays NULL and removal still happens. The queue pointer stays non-NULL, so removing the only element leaves a valid non-NULL queue over no elements (with the tail reset, as corrected under Findings) |
| `LinkedQueue.EmptyIsFresh` | 0_CProgrammingLab/lab0-solution/queue.c:25-37 | a valid non-NULL queue over no elements has an empty heap and is exactly the queue `q_new` returns, so a queue emptied by `q_remove_head` behaves like a fresh one |
| `LinkedQueue.RelinkBackwards` | 0_CProgrammingLab/lab0-solution/queue.c:200-207 | the loop points every element of the list at its predecessor (the first at NULL), keeps every string and the set of allocated elements, and ends with `prev` on the last element |
| `LinkedQueue.Reverse` | 0_CProgrammingLab/lab0-solution/queue.c:194-211 | a NULL or empty queue is unchanged. Otherwise the result is valid over the reversed list, its contents are the reversed contents, no element is allocated or freed, no string changes, and head and tail swap. A queue of one element is unchanged |
| `LinkedQueue.ReverseTwice` | 0_CProgrammingLab/lab0-solution/queue.c:194-211 | reversing twice gives back exactly the original heap and queue |
| `LinkedQueue.Free` | 0_CProgrammingLab/lab0-solution/queue.c:40-56 | walking the list and releasing each element leaves no element allocated |
| `Scenarios.FifoOrder` | 0_CProgrammingLab/lab0-solution/queue.c:104-171 | "a" then "b" inserted at the tail give size 2, and two removals return "a" then "b" |
| `Scenarios.LifoOrder` | 0_CProgrammingLab/lab0-solution/queue.c:65-95 | "x" then "y" inserted at the head come out as "y" then "x" |
| `Scenarios.ReverseThenRemove` | 0_CProgrammingLab/lab0-solution/queue.c:194-211 | after inserting "a" and "b" at the tail and reversing, the head removal returns "b" |
| `Scenarios.OneByteBuffer` | 0_CProgrammingLab/lab0-solution/queue.c:157-165 | removing "x" into a one-byte buffer succeeds, the buffer holds only the terminator, and the queue is empty afterwards |
| `Scenarios.LastRemovalAsWritten` | 0_CProgrammingLab/lab0-solution/queue.c:153-155 | inserting "a" at the tail and removing it with the unlinking of `queue.c` leaves a headless queue whose tail is the freed element 1 |
| `Scenarios.RemoveLastThenInsert` | 0_CProgrammingLab/lab0-solution/queue.c:104-185 | after "a" is inserted at the tail and removed, heap and queue equal a fresh queue. A following tail insertion of "b" succeeds, the size is 1, and the next removal returns "b" |

## Left out

- `malloc` and `free` are not modelled as an allocator. Allocation results are parameters, and freeing removes the element from the heap map. The `harness.h` wrappers are not part of this model.
- Each element's string copy (`queue.c` lines 77 and 115) is held inside the element and released with it. The separate `free(cur->value)` and `free(oldh->value)` (lines 50 and 166) are not modelled, so a leaked string copy cannot be expressed.
- The heap holds the elements of one queue only. Several queues sharing one heap are not modelled.
- `strcpy` is not modelled byte by byte. The stored copy is the content that `string_len` delimits. The `sizeof(char) * string_len(s)` allocation assumes one byte per character, as `queue.c` does.
- `LinkedQueue.Size`: the `(int)` cast of the `size_t` count is not modelled, and neither is `size_t` overflow of the count; counts are unbounded naturals.
- `LinkedQueue.RemoveHead`: requires `bufsize >= 1` when a buffer is supplied. With `bufsize == 0` `queue.c` writes outside the buffer (second row under Findings, modelled by `CString.TerminatorIndexAsWritten`).
- `CString.CopyOut`: requires `1 <= bufsize`, for the same reason; the buffer itself is always present here.
- `LinkedQueue.DanglingTailAfterLastRemoval`: the head-insertion part requires the new element's address to differ from the freed one. If `malloc` hands back the freed address, the dangling tail happens to point at the new head again.
- `LinkedQueue.Free` returns only the heap: the queue record itself is released and there is nothing left to return.
- The operations require a valid queue (or NULL). Arbitrary or already-freed queue pointers passed by a caller are not modelled.

## Findings

| source | as written | input that shows it | evidently intended | confidence | as-written member | corrected member |
|---|---|---|---|---|---|---|
| 0_CProgrammingLab/lab0-solution/queue.c:155 | `q_remove_head` advances `head` but never resets `tail` when the last element goes | `q_new`; `q_insert_tail(q, "a")`; `q_remove_head(q, NULL, 0)` leaves `tail` on the freed element. A following `q_insert_tail(q, "b")` writes through the freed pointer and leaves `head` NULL, so `q_size` returns 0 and "b" cannot be removed | when the head becomes NULL, set the tail to NULL too, so the empty queue matches a fresh one | high (not executed) | `LinkedQueue.PopHeadAsWritten` | `LinkedQueue.PopHead` |
| 0_CProgrammingLab/lab0-solution/queue.c:160 | the copy bound `bufsize - 1` is computed in `size_t` | `sp` non-NULL, `bufsize == 0`, head string "ab": the bound wraps to 2^64-1 and the terminator is written at index 2 of a zero-byte buffer | never write outside the `bufsize` bytes supplied; callers pass `bufsize >= 1` | medium (not executed; callers may be expected never to pass 0) | `CString.TerminatorIndexAsWritten` | `CString.CopyOut` |

The rest of the model uses the corrected members: `LinkedQueue.RemoveHead`
unlinks with `PopHead` and copies with `CopyOut`.

The intended behaviour is that an emptied queue is the same as a fresh one and
that nothing is written outside the caller's buffer. The corrected members
implement that behaviour; `queue.c` as written does neither.
