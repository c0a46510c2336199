/** Listing 3's `List`: a circular singly-linked list of Strings whose beginning
    and end is the sentinel node `head`, with a hand-written serial form (a count,
    then the Strings) instead of the default field-by-field one. */
module RingList {
  import opened SerialFormat

  /** A Java reference to a String that may be null. */
  datatype Option<T> = None | Some(value: T)

  /** The inner class `Node`: a final datum and a mutable `next` link. */
  class Node {
    const datum: Option<string>
    var next: Node?

    constructor (datum: Option<string>)
      ensures this.datum == datum && next == null
    {
      this.datum := datum;
      next := null;
    }
  }

  class List {
    // the two (transient) fields of the Java class
    var size: int
    var head: Node?

    // public view: the Strings in ring order, starting after the sentinel
    ghost var elems: seq<string>
    // the ring itself: the sentinel, then one node per element, in `next` order
    ghost var nodes: seq<Node>
    ghost var Repr: set<object>

    /** The representation invariant: following `next` from the sentinel visits
        `size` distinct element nodes and then comes back to the sentinel. */
    ghost predicate Valid()
      reads this, Repr
    {
      && this in Repr
      && |nodes| == size + 1
      && |elems| == size
      && nodes[0] == head
      && (forall i :: 0 <= i < |nodes| ==> nodes[i] in Repr)
      && (forall i, j :: 0 <= i < j < |nodes| ==> nodes[i] != nodes[j])
      && (forall i :: 0 <= i < |nodes| - 1 ==> nodes[i].next == nodes[i + 1])
      && nodes[|nodes| - 1].next == head
      && nodes[0].datum == None
      && (forall i :: 0 <= i < |elems| ==> nodes[i + 1].datum == Some(elems[i]))
    }

    /** `new List()`: an empty ring. */
    constructor ()
      ensures Valid() && fresh(Repr)
      ensures size == 0 && elems == [] && head.next == head
    {
      size := 0;
      head := null;
      elems := [];
      nodes := [];
      Repr := {this};
      new;
      Initialize();
    }

    /** The instance the deserializer allocates before it calls readObject:
        List's own constructor does not run, so the transient fields keep
        their default values. */
    constructor Allocated()
      ensures size == 0 && head == null && Repr == {this}
    {
      size := 0;
      head := null;
      elems := [];
      nodes := [];
      Repr := {this};
    }

    /** `initialize`: a fresh sentinel linked to itself, and no elements.
        Whatever the list held before is dropped. */
    method Initialize()
      modifies this
      ensures Valid() && fresh(Repr - {this})
      ensures size == 0 && elems == [] && fresh(head) && head.next == head
    {
      var sentinel := new Node(None);
      sentinel.next := sentinel;
      head := sentinel;
      size := 0;
      elems := [];
      nodes := [sentinel];
      Repr := {this, sentinel};
    }

    /** `add`: a fresh node right after the sentinel, so the new String becomes
        the first one; only the sentinel's `next` is rewired. */
    method Add(datum: string)
      requires Valid()
      modifies this, head
      ensures Valid() && fresh(Repr - old(Repr))
      ensures size == old(size) + 1 && elems == [datum] + old(elems)
      ensures head == old(head)
      ensures |nodes| == |old(nodes)| + 1 && nodes[0] == head && fresh(nodes[1])
      ensures nodes[2..] == old(nodes[1..])
      ensures head.next == nodes[1] && nodes[1].next == old(head.next)
      ensures forall i :: 1 <= i < |old(nodes)| ==> old(nodes)[i].next == old(nodes[i].next)
    {
      var node := new Node(Some(datum));
      node.next := head.next;
      head.next := node;
      size := size + 1;
      elems := [datum] + elems;
      nodes := [head, node] + nodes[1..];
      Repr := Repr + {node};
    }

    /** `contains`: walks the ring from the node after the sentinel until it is
        back at the sentinel, comparing each datum with `datum`. */
    method Contains(datum: string) returns (found: bool)
      requires Valid()
      ensures found <==> datum in elems
    {
      var current := head.next;
      ghost var k := 1;
      while current != head
        invariant 1 <= k <= |nodes|
        invariant k < |nodes| ==> current == nodes[k]
        invariant k == |nodes| ==> current == head
        invariant forall j :: 0 <= j < k - 1 ==> elems[j] != datum
        decreases |nodes| - k
      {
        assert current.datum == Some(elems[k - 1]);
        if current.datum == Some(datum) {
          return true;
        }
        current := current.next;
        k := k + 1;
      }
      return false;
    }

    /** `writeObject`: the count, then each datum from the node after the
        sentinel round to the sentinel (most recently added first). The list
        is left as it was. */
    method WriteObject() returns (out: seq<Tok>)
      requires Valid()
      ensures out == Encode(elems)
    {
      out := [IntTok(size)];
      var current := head.next;
      ghost var k := 1;
      while current != head
        invariant 1 <= k <= |nodes|
        invariant k < |nodes| ==> current == nodes[k]
        invariant k == |nodes| ==> current == head
        invariant |out| == k && out[0] == IntTok(size)
        invariant forall j :: 1 <= j < k ==> out[j] == StrTok(elems[j - 1])
        decreases |nodes| - k
      {
        assert current.datum == Some(elems[k - 1]);
        out := out + [StrTok(current.datum.value)];
        current := current.next;
        k := k + 1;
      }
      assert out == Encode(elems);
    }

    /** `readObject`: drop the contents, read the count, then read and `add`
        one String per announced element. Because `add` puts each String in
        front, the ring ends up holding the Strings in the reverse of stream
        order. A stream that ends early or holds a token of the wrong kind
        stops the read, leaving the Strings read so far. */
    method ReadObject(input: seq<Tok>) returns (status: Status)
      modifies this
      ensures Valid() && fresh(Repr - {this})
      ensures status == Decode(input).status
      ensures elems == Reversed(Decode(input).items)
      ensures size == |Decode(input).items|
    {
      Initialize();
      if input == [] {
        return Failed(EndOfStream);
      }
      match input[0] {
        case StrTok(_) =>
          return Failed(WrongKind);
        case IntTok(numberOfElements) =>
          ghost var read: seq<string> := [];
          var i := 0;
          while i < numberOfElements
            invariant 0 <= i <= Wanted(numberOfElements)
            invariant 1 + i <= |input|
            invariant Valid() && fresh(Repr - {this})
            invariant |read| == i && elems == Reversed(read)
            invariant forall k :: 0 <= k < i ==> input[1 + k] == StrTok(read[k])
          {
            if 1 + i == |input| {
              DecodeItemsUnique(input, read);
              return Failed(EndOfStream);
            }
            match input[1 + i] {
              case IntTok(_) =>
                DecodeItemsUnique(input, read);
                return Failed(WrongKind);
              case StrTok(datum) =>
                Add(datum);
                ReversedSnoc(read, datum);
                read := read + [datum];
            }
            i := i + 1;
          }
          DecodeItemsUnique(input, read);
          return Complete(1 + i);
      }
    }

    /** The node reached from the sentinel by following `next` `k` times,
        for up to one full turn of the ring. */
    ghost function Walk(k: nat): (n: Node)
      requires Valid() && k <= |nodes|
      reads this, Repr
      ensures k < |nodes| ==> n == nodes[k]
      ensures k == |nodes| ==> n == head
      decreases k
    {
      if k == 0 then nodes[0]
      else
        var prev := Walk(k - 1);
        assert prev.next == if k < |nodes| then nodes[k] else nodes[0];
        prev.next
    }

    /** The ring closes: `size + 1` steps from the sentinel lead back to it,
        and every shorter walk stops at a distinct element node. */
    lemma RingCloses()
      requires Valid()
      ensures Walk(size + 1) == head
      ensures forall k :: 0 < k <= size ==> Walk(k) != head && Walk(k).datum.Some?
      ensures forall k, j :: 0 <= k < j <= size ==> Walk(k) != Walk(j)
    {
      forall k | 0 < k <= size ensures Walk(k) != head && Walk(k).datum.Some? {
        assert nodes[k].datum == Some(elems[k - 1]);
      }
    }
  }
}
