# Listing 3: a circular list with a hand-written serial form

This project models the `List` class of `Listing3.java` in the serialization
study. `List` is a circular, singly-linked list of Strings. Its beginning and
end are marked by a sentinel node `head`, and a `size` counter tracks the
number of elements. Both fields are `transient`. The class takes over its own
serialization with `writeObject` and `readObject`:

- `writeObject` writes the count, then each String in ring order.
- `readObject` drops whatever the list holds, reads the count, and `add`s one
  String per announced element.

The model has three modules.

- `SerialFormat` (`serial_format.dfy`) is the logical stream. `Tok` is a
  primitive int or a String object. `Encode` is what `writeObject` emits.
  `Decode` is what `readObject` obtains, including the two ways it can fail:
  the stream ends too early (`EndOfStream`), or a token has the wrong kind
  (`WrongKind`). This module also proves the round trip and the rejection of
  truncated streams.
- `RingList` (`ring_list.dfy`) holds the heap structure: `Node`, with a
  constant datum and a mutable `next`, and `List`, with its `size` and `head`
  fields. Three ghost fields give the public view: `elems` (the Strings in
  ring order after the sentinel), `nodes` (the ring itself) and `Repr`.
  `Valid()` ties them together. Following `next` from `head` visits
  `size` distinct element nodes and comes back to `head`. Each element node's
  datum is the matching String, and the sentinel's datum is null (`None`).
  `Add`, `Contains`, `WriteObject` and `ReadObject` are methods with the
  source's loops. Each is proved against `elems` and the `SerialFormat`
  functions.
- `ListTest` (`list_test.dfy`) turns the JUnit cases into methods. Each
  method's postcondition is what the test asserts. `SerializeDeserialize`
  is the write-then-read round trip that `canBeSerialized` performs through
  the JDK.

`add` puts the new node right after the sentinel. So `writeObject` emits the
most recently added String first. `readObject` then adds the Strings in
stream order, which leaves the copy in the REVERSE of the original's ring
order. A field-by-field serialization of the same ring would keep the
traversal order, but this code does not. The model follows the code.
`ReadObject` and `SerializeDeserialize` state the reversal outright. The
round trip keeps the size, the multiset of Strings and membership, which is
all the tests check.

The deserializer does not run `List()` before `readObject`, so at that point
`head` is null and `size` is 0. The constructor `Allocated` models that
instance. `ReadObject` requires nothing of the state it starts from, because
`initialize` replaces it.

## Model

| member | source | states |
|---|---|---|
| `SerialFormat.TakeStrings` | src/listings/java/com/github/tomboyo/serializationStudy/Listing3.java:109-111 | the reader gets the longest run of Strings at the front of the stream, at most the count, and stops at the end of the stream or at a non-String token |
| `SerialFormat.Decode` | src/listings/java/com/github/tomboyo/serializationStudy/Listing3.java:105-112 | an empty stream fails with end-of-stream; a String where the count belongs fails with wrong-kind; otherwise the items are the longest matching run of Strings; the read completes after taking `1 + count` tokens when all announced Strings are present, and fails with end-of-stream or wrong-kind otherwise |
| `SerialFormat.DecodeCompleteIffWellFormed` | src/listings/java/com/github/tomboyo/serializationStudy/Listing3.java:105-112 | the read completes exactly when the stream holds a count followed by at least that many Strings, and then it has read exactly the announced number of Strings |
| `SerialFormat.TakeStringsUnique` | src/listings/java/com/github/tomboyo/serializationStudy/Listing3.java:109-111 | any sequence of Strings that matches the front of the stream and stops where the reader stops equals what the reader gets |
| `SerialFormat.DecodeItemsUnique` | src/listings/java/com/github/tomboyo/serializationStudy/Listing3.java:108-111 | the items of a read are determined by the stream: a matching run of Strings that ends where the read ends is the read's items |
| `SerialFormat.DecodeEncode` | src/listings/java/com/github/tomboyo/serializationStudy/Listing3.java:89-112 | reading what the writer wrote gives back the same Strings in stream order and takes exactly `1 + |s|` tokens, whatever follows in the stream |
| `SerialFormat.TruncatedEncodeFails` | src/listings/java/com/github/tomboyo/serializationStudy/Listing3.java:105-111 | a written stream cut short anywhere fails with end-of-stream and is never read as a shorter list |
| `SerialFormat.Reversed` | src/listings/java/com/github/tomboyo/serializationStudy/Listing3.java:65-68 | the reversal has the same length, with position `k` holding the element at position `|s| - 1 - k` |
| `SerialFormat.ReversedSameMultiset` | src/listings/java/com/github/tomboyo/serializationStudy/Listing3.java:120-133 | reversing keeps every String and its number of occurrences, so a reversed copy has the same membership |
| `SerialFormat.ReversedSnoc` | src/listings/java/com/github/tomboyo/serializationStudy/Listing3.java:109-111 | adding the next String read to the front of the ring keeps the ring equal to the reversal of the Strings read so far |
| `RingList.Node.constructor` | src/listings/java/com/github/tomboyo/serializationStudy/Listing3.java:42-49 | a new node holds the given datum and has no successor yet |
| `RingList.List.constructor` | src/listings/java/com/github/tomboyo/serializationStudy/Listing3.java:54-56 | a new list satisfies the ring invariant, is empty, has size 0, and its sentinel points to itself |
| `RingList.List.Allocated` | src/listings/java/com/github/tomboyo/serializationStudy/Listing3.java:51-52 | the instance that exists before `readObject` runs has its transient fields at their defaults: `head` is null and `size` is 0 |
| `RingList.List.Initialize` | src/listings/java/com/github/tomboyo/serializationStudy/Listing3.java:59-63 | from any state, the list becomes a valid empty ring: a fresh sentinel whose `next` is itself, with size 0 |
| `RingList.List.Add` | src/listings/java/com/github/tomboyo/serializationStudy/Listing3.java:65-70 | the ring invariant is kept; size grows by exactly one; the String becomes the first element; a fresh node sits right after the sentinel, the old successor follows it, the earlier nodes keep their order, and no other node's `next` changes |
| `RingList.List.Contains` | src/listings/java/com/github/tomboyo/serializationStudy/Listing3.java:72-80 | the result is true if and only if some element node holds the String; the walk ends back at the sentinel and changes nothing |
| `RingList.List.WriteObject` | src/listings/java/com/github/tomboyo/serializationStudy/Listing3.java:89-97 | the list's tokens are the count followed by the Strings in ring order from the node after the sentinel (most recent first); the list is unchanged |
| `RingList.List.ReadObject` | src/listings/java/com/github/tomboyo/serializationStudy/Listing3.java:105-112 | the prior contents are dropped; the ring invariant holds afterwards; the outcome is the stream's `Decode` status; the list holds the Strings read, in reverse stream order, with size equal to their number, also when the read stops early |
| `RingList.List.Walk` | src/listings/java/com/github/tomboyo/serializationStudy/Listing3.java:36-52 | following `next` from the sentinel `k` times, up to one full turn, reaches the `k`-th node of the ring, and a full turn reaches the sentinel |
| `RingList.List.RingCloses` | src/listings/java/com/github/tomboyo/serializationStudy/Listing3.java:36-52 | `size + 1` steps from the sentinel lead back to it; every shorter walk ends at an element node that is not the sentinel and holds a String; the nodes visited are distinct |
| `ListTest.SerializeDeserialize` | src/listings/java/com/github/tomboyo/serializationStudy/Listing3.java:120-133 | writing a valid list and reading it into a new instance completes after `1 + size` tokens; the copy is valid, has the same size and the same multiset of Strings, holds exactly the same Strings, and is in reverse ring order |
| `ListTest.CanBeSerialized` | src/listings/java/com/github/tomboyo/serializationStudy/Listing3.java:120-133 | the copy of a list holding "a" and "b" has size 2 and contains both |
| `ListTest.ContainsMissingElement` | src/listings/java/com/github/tomboyo/serializationStudy/Listing3.java:138-141 | a new list does not contain "cats" |
| `ListTest.AddAndGet` | src/listings/java/com/github/tomboyo/serializationStudy/Listing3.java:143-153 | after adding "a", "b" and "c", the list contains all three |
| `ListTest.SizeOfList` | src/listings/java/com/github/tomboyo/serializationStudy/Listing3.java:155-165 | the size is 0, then 1, then 2 as the same String is added twice |
| `ListTest.AddKeepsMembership` | src/listings/java/com/github/tomboyo/serializationStudy/Listing3.java:65-80 | after `add(x)` the list contains `x`, and every String it contained before it still contains |

## Left out

- `SerializeUtil.java`, the other listings, `ExampleOne.java` and the file test `Listing4.java` are not part of this model. They only exercise the JDK's serialization: transient and static fields, `NotSerializableException`, copies and file streams. None of that logic is in the repository.
- The byte format of Java object streams, the class descriptors, and the stream's own framing are not modelled. A stream is a sequence of int and String tokens.
- `RingList.List.WriteObject` returns the tokens it emits instead of appending them to an `ObjectOutputStream`. An `IOException` from the sink is not modelled.
- `RingList.List.ReadObject` reports a malformed stream with the model's own two errors, `EndOfStream` and `WrongKind`. In the JDK every one of these cases aborts deserialization with an exception, but not along that split: a missing count or a String where the count belongs makes `readInt` throw `EOFException`, while a missing String or an int where a String belongs makes `readObject` throw `OptionalDataException`. The exception classes, a non-String object token (the `ClassCastException` of the `(String)` cast), `ClassNotFoundException` and other `IOException`s are not modelled.
- `RingList.List.Add` takes a non-null String. Java's `add(null)` would store a null datum, and a later `contains` that reaches that node would throw a `NullPointerException`. That case is not modelled. Only the sentinel's datum is null (`None`).
- `RingList.List.Contains` takes a non-null String, so `contains(null)` is not modelled. Java accepts it and returns false, because `equals(null)` is false for every element's non-null datum.
- `RingList.List.Add`: `size` is an unbounded integer. Java's `int` counter would wrap after 2^31 - 1 additions, and then `writeObject` would write a negative count. That overflow is not modelled.
- `RingList.List.Walk` is stated for at most one full turn of the ring, not for arbitrarily many turns.
- The inner class `Node`'s hidden reference to its enclosing `List` is not modelled; no code uses it.
