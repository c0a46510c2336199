/** The logical serial form that the list's writeObject and readObject agree on:
    the element count as a primitive int, then that many Strings.
    The object stream is abstracted to a sequence of tokens; its byte encoding
    belongs to the JDK and is not modelled. */
module SerialFormat {

  /** One item of an object stream as the list sees it: a primitive int
      (writeInt / readInt) or a String object (writeObject / readObject). */
  datatype Tok = IntTok(count: int) | StrTok(text: string)

  /** Why reading the stream can fail. This is the model's own split of
      malformed streams; in the JDK each of them aborts deserialization with
      an exception. */
  datatype StreamError =
    | EndOfStream  // the stream ended before the count or before the last announced String
    | WrongKind    // a String where the count was expected, or an int where a String was

  /** How a read ended: with the number of tokens taken, or with an error. */
  datatype Status = Complete(consumed: nat) | Failed(error: StreamError)

  /** The Strings a read obtained, in stream order, and how the read ended. */
  datatype Decoded = Decoded(items: seq<string>, status: Status)

  /** The number of iterations of `for (int i = 0; i < n; i++)`. */
  function Wanted(n: int): nat
  {
    if n < 0 then 0 else n
  }

  /** What writeObject emits for a list whose ring holds `s`, starting after the sentinel. */
  function Encode(s: seq<string>): seq<Tok>
  {
    [IntTok(|s|)] + seq(|s|, k requires 0 <= k < |s| => StrTok(s[k]))
  }

  /** The Strings read from the front of `toks` by at most `n` calls of readObject,
      stopping at the end of the stream or at the first token that is not a String:
      the longest such prefix. */
  function TakeStrings(toks: seq<Tok>, n: nat): (r: seq<string>)
    ensures |r| <= n && |r| <= |toks|
    ensures forall k :: 0 <= k < |r| ==> toks[k] == StrTok(r[k])
    ensures |r| < n ==> |r| == |toks| || toks[|r|].IntTok?
    decreases n
  {
    if n == 0 || |toks| == 0 || toks[0].IntTok? then []
    else [toks[0].text] + TakeStrings(toks[1..], n - 1)
  }

  /** What readObject obtains from `input`: readInt, then one readObject per
      announced element, stopping at the first failure. */
  function Decode(input: seq<Tok>): (r: Decoded)
    ensures input == [] ==> r == Decoded([], Failed(EndOfStream))
    ensures input != [] && input[0].StrTok? ==> r == Decoded([], Failed(WrongKind))
    ensures input != [] && input[0].IntTok? ==>
      var want := Wanted(input[0].count);
      && |r.items| <= want && 1 + |r.items| <= |input|
      && (forall k :: 0 <= k < |r.items| ==> input[1 + k] == StrTok(r.items[k]))
      && (|r.items| < want ==> 1 + |r.items| == |input| || input[1 + |r.items|].IntTok?)
      && r.status == (if |r.items| == want then Complete(1 + want)
                      else if 1 + |r.items| == |input| then Failed(EndOfStream)
                      else Failed(WrongKind))
  {
    if input == [] then Decoded([], Failed(EndOfStream))
    else match input[0]
      case StrTok(_) => Decoded([], Failed(WrongKind))
      case IntTok(n) =>
        var items := TakeStrings(input[1..], Wanted(n));
        var status :=
          if |items| == Wanted(n) then Complete(1 + Wanted(n))
          else if 1 + |items| == |input| then Failed(EndOfStream)
          else Failed(WrongKind);
        Decoded(items, status)
  }

  /** A stream readObject accepts: a count, then at least that many Strings. */
  ghost predicate WellFormed(input: seq<Tok>)
  {
    && input != []
    && input[0].IntTok?
    && Wanted(input[0].count) < |input|
    && forall k :: 1 <= k <= Wanted(input[0].count) ==> input[k].StrTok?
  }

  /** readObject completes exactly on well-formed streams, and then it has taken
      the count and the announced number of Strings, no more. */
  lemma DecodeCompleteIffWellFormed(input: seq<Tok>)
    ensures Decode(input).status.Complete? <==> WellFormed(input)
    ensures Decode(input).status.Complete? ==>
      && |Decode(input).items| == Wanted(input[0].count)
      && Decode(input).status.consumed == 1 + Wanted(input[0].count)
  {
  }

  /** TakeStrings is the only sequence of Strings that matches the front of
      the tokens and stops where a reader stops. */
  lemma {:induction false} TakeStringsUnique(toks: seq<Tok>, n: nat, read: seq<string>)
    requires |read| <= n && |read| <= |toks|
    requires forall k :: 0 <= k < |read| ==> toks[k] == StrTok(read[k])
    requires |read| == n || |read| == |toks| || toks[|read|].IntTok?
    ensures TakeStrings(toks, n) == read
    decreases n
  {
    if read != [] {
      assert toks[0] == StrTok(read[0]);
      forall k | 0 <= k < |read| - 1 ensures toks[1..][k] == StrTok(read[1..][k]) {
        assert toks[1 + k] == StrTok(read[1 + k]);
      }
      TakeStringsUnique(toks[1..], n - 1, read[1..]);
      assert read == [read[0]] + read[1..];
    }
  }

  /** The items of a read are determined by the stream: any sequence of Strings
      that matches the stream and stops where the reader stops is the read. */
  lemma DecodeItemsUnique(input: seq<Tok>, read: seq<string>)
    requires input != [] && input[0].IntTok?
    requires |read| <= Wanted(input[0].count) && 1 + |read| <= |input|
    requires forall k :: 0 <= k < |read| ==> input[1 + k] == StrTok(read[k])
    requires |read| == Wanted(input[0].count) || 1 + |read| == |input| || input[1 + |read|].IntTok?
    ensures Decode(input).items == read
  {
    var toks := input[1..];
    forall k | 0 <= k < |read| ensures toks[k] == StrTok(read[k]) {
      assert toks[k] == input[1 + k];
    }
    TakeStringsUnique(toks, Wanted(input[0].count), read);
  }

  /** Reading back what writeObject wrote yields the same Strings, in the same
      stream order, and takes exactly the count and the `|s|` Strings. */
  lemma {:induction false} DecodeEncode(s: seq<string>, rest: seq<Tok>)
    ensures Decode(Encode(s) + rest) == Decoded(s, Complete(1 + |s|))
  {
    var input := Encode(s) + rest;
    assert input[0] == IntTok(|s|);
    forall k | 0 <= k < |s| ensures input[1 + k] == StrTok(s[k]) {
      assert input[1 + k] == Encode(s)[1 + k];
    }
    DecodeItemsUnique(input, s);
  }

  /** A stream that writeObject produced, cut short anywhere, is reported as
      ending too early; it is never read as a shorter list. */
  lemma {:induction false} TruncatedEncodeFails(s: seq<string>, m: nat)
    requires m <= |s|
    ensures Decode(Encode(s)[..m]).status == Failed(EndOfStream)
  {
    var input := Encode(s)[..m];
    if m > 0 {
      assert input[0] == IntTok(|s|);
      var items := Decode(input).items;
      assert 1 + |items| <= m;
    }
  }

  /** The sequence in the opposite order. */
  function Reversed<T>(s: seq<T>): (r: seq<T>)
    ensures |r| == |s|
    ensures forall k :: 0 <= k < |s| ==> r[k] == s[|s| - 1 - k]
  {
    if s == [] then [] else Reversed(s[1..]) + [s[0]]
  }

  /** Reversing keeps every element and its number of occurrences. */
  lemma {:induction false} ReversedSameMultiset<T>(s: seq<T>)
    ensures multiset(Reversed(s)) == multiset(s)
  {
    if s != [] {
      ReversedSameMultiset(s[1..]);
      assert Reversed(s) == Reversed(s[1..]) + [s[0]];
      assert s == [s[0]] + s[1..];
    }
  }

  /** Appending at the end of a sequence prepends to its reversal. */
  lemma ReversedSnoc<T>(s: seq<T>, x: T)
    ensures Reversed(s + [x]) == [x] + Reversed(s)
  {
    var a, b := Reversed(s + [x]), [x] + Reversed(s);
    assert |a| == |b|;
    forall k | 0 <= k < |a| ensures a[k] == b[k] {
      if k > 0 {
        assert (s + [x])[|s| - k] == s[|s| - 1 - (k - 1)];
      }
    }
  }
}
