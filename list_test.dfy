/** The JUnit cases of ListTest, each as a method whose postcondition is what
    the test asserts, plus the serialize-then-deserialize round trip they rely on. */
module ListTest {
  import opened SerialFormat
  import opened RingList

  /** Writing a list and reading the stream back into a newly allocated list:
      the copy has the same size and the same Strings, each as often, in the
      reverse ring order, and the reader takes exactly the count and the Strings. */
  method SerializeDeserialize(original: List) returns (copy: List, status: Status)
    requires original.Valid()
    ensures fresh(copy) && copy.Valid()
    ensures status == Complete(1 + original.size)
    ensures copy.size == original.size
    ensures copy.elems == Reversed(original.elems)
    ensures multiset(copy.elems) == multiset(original.elems)
    ensures forall x :: x in copy.elems <==> x in original.elems
  {
    var stream := original.WriteObject();
    copy := new List.Allocated();
    status := copy.ReadObject(stream);
    assert stream + [] == stream;
    DecodeEncode(original.elems, []);
    ReversedSameMultiset(original.elems);
    forall x ensures x in copy.elems <==> x in original.elems {
      assert x in copy.elems <==> x in multiset(copy.elems);
      assert x in original.elems <==> x in multiset(original.elems);
    }
  }

  /** canBeSerialized: a list of "a" and "b" comes back with size 2 and both Strings. */
  method CanBeSerialized() returns (size: int, hasA: bool, hasB: bool)
    ensures size == 2 && hasA && hasB
  {
    var original := new List();
    original.Add("a");
    original.Add("b");
    var copy, _ := SerializeDeserialize(original);
    size := copy.size;
    hasA := copy.Contains("a");
    hasB := copy.Contains("b");
  }

  /** testContainsMissingElement: a new list contains nothing. */
  method ContainsMissingElement() returns (found: bool)
    ensures !found
  {
    var list := new List();
    found := list.Contains("cats");
  }

  /** testAddAndGet: every added String is contained afterwards. */
  method AddAndGet() returns (hasA: bool, hasB: bool, hasC: bool)
    ensures hasA && hasB && hasC
  {
    var list := new List();
    list.Add("a");
    list.Add("b");
    list.Add("c");
    hasA := list.Contains("a");
    hasB := list.Contains("b");
    hasC := list.Contains("c");
  }

  /** testSizeOfList: the size starts at 0 and each add raises it by one,
      even when the same String is added twice. */
  method SizeOfList() returns (size0: int, size1: int, size2: int)
    ensures size0 == 0 && size1 == 1 && size2 == 2
  {
    var list := new List();
    size0 := list.size;
    list.Add("");
    size1 := list.size;
    list.Add("");
    size2 := list.size;
  }

  /** After `add(x)`, `x` is contained, and whatever was contained before still is. */
  method AddKeepsMembership(list: List, x: string, y: string) returns (hasX: bool, hadY: bool, hasY: bool)
    requires list.Valid()
    modifies list, list.head
    ensures list.Valid()
    ensures hasX && (hadY ==> hasY)
  {
    hadY := list.Contains(y);
    list.Add(x);
    hasX := list.Contains(x);
    hasY := list.Contains(y);
  }
}
