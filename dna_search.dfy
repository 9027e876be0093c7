/**
 * The suffix collection of the DNA search: views over one shared string that avoid
 * copying. A `Suffix` runs from an offset to the end of the data; a `SubSequence` has a
 * fixed length. Exceptions become `Failure(IndexOutOfBounds)`.
 */
module DnaSearch {
  import opened Wrappers

  datatype View = Suffix(offset: int) | SubSequence(offset: int, len: int)

  /** A view that lies inside `data`, as every view the constructors accept does. */
  predicate ValidView(data: string, v: View)
  {
    && 0 <= v.offset <= |data|
    && (v.SubSequence? ==> 0 <= v.len && v.offset + v.len <= |data|)
  }

  /** `length()`: the rest of the data for a suffix, the stored length for a subsequence. */
  function Length(data: string, v: View): (n: int)
    ensures ValidView(data, v) ==> 0 <= n <= |data| - v.offset
  {
    match v
    case Suffix(offset) => |data| - offset
    case SubSequence(_, len) => len
  }

  /** The characters a view stands for. */
  function Text(data: string, v: View): (t: string)
    requires ValidView(data, v)
    ensures |t| == Length(data, v)
  {
    data[v.offset..v.offset + Length(data, v)]
  }

  /** `new Suffix(begin)`: accepted exactly when 0 <= begin <= |data|. */
  function NewSuffix(data: string, begin: int): (r: Result<View>)
    ensures r.Success? <==> 0 <= begin <= |data|
    ensures r.Success? ==> ValidView(data, r.value) && r.value.Suffix? && Text(data, r.value) == data[begin..]
    ensures r.Failure? ==> r.error == IndexOutOfBounds
  {
    if begin < 0 || begin > |data| then Failure(IndexOutOfBounds)
    else Success(Suffix(begin))
  }

  /** `new SubSequence(begin, end)`: the `Suffix` check on `begin` runs first, then its own. */
  function NewSubSequence(data: string, begin: int, end: int): (r: Result<View>)
    ensures r.Success? <==> 0 <= begin <= end <= |data|
    ensures r.Success? ==> ValidView(data, r.value) && Text(data, r.value) == data[begin..end]
    ensures r.Failure? ==> r.error == IndexOutOfBounds
  {
    if begin < 0 || begin > |data| then Failure(IndexOutOfBounds)
    else if begin < 0 || begin > end || end > |data| then Failure(IndexOutOfBounds)
    else Success(SubSequence(begin, end - begin))
  }

  /**
   * `charAt` as written: a suffix delegates to `data.charAt(offset + index)`; a subsequence
   * first rejects `index >= length`. Neither rejects a negative index.
   */
  function CharAtAsWritten(data: string, v: View, index: int): (r: Result<char>)
    ensures r.Success? ==> 0 <= v.offset + index < |data| && r.value == data[v.offset + index]
    ensures ValidView(data, v) && 0 <= index < Length(data, v) ==> r == Success(Text(data, v)[index])
  {
    if v.SubSequence? && index >= v.len then Failure(IndexOutOfBounds)
    else if 0 <= v.offset + index < |data| then Success(data[v.offset + index])
    else Failure(IndexOutOfBounds)
  }

  /** `charAt` as the `CharSequence` contract asks: only indices in [0, length()) are answered. */
  function CharAt(data: string, v: View, index: int): (r: Result<char>)
    requires ValidView(data, v)
    ensures r.Success? <==> 0 <= index < Length(data, v)
    ensures r.Success? ==> r.value == Text(data, v)[index]
  {
    if index < 0 then Failure(IndexOutOfBounds)
    else CharAtAsWritten(data, v, index)
  }

  /** On every non-negative index the written `charAt` already behaves as the contract asks. */
  lemma CharAtAgreesOnNaturals(data: string, v: View, index: int)
    requires ValidView(data, v) && index >= 0
    ensures CharAtAsWritten(data, v, index) == CharAt(data, v, index)
  {
  }

  /** The suffix "C" of "AC" answers `charAt(-1)` with the character before it. */
  lemma CharAtNegativeIndex()
    ensures CharAtAsWritten("AC", Suffix(1), -1) == Success('A')
    ensures CharAt("AC", Suffix(1), -1) == Failure(IndexOutOfBounds)
  {
  }

  /**
   * `subSequence(begin, end)`: rejected unless 0 <= begin <= end <= length(); a view that
   * reaches the end of the data stays a `Suffix`, any other becomes a `SubSequence`.
   */
  function SubSequenceOf(data: string, v: View, begin: int, end: int): (r: Result<View>)
    requires ValidView(data, v)
    ensures r.Success? <==> 0 <= begin <= end <= Length(data, v)
    ensures r.Success? ==> ValidView(data, r.value) && Text(data, r.value) == Text(data, v)[begin..end]
    ensures r.Success? ==> (r.value.Suffix? <==> v.offset + end == |data|)
    ensures r.Success? ==> Length(data, r.value) == end - begin
  {
    if begin < 0 || begin > end || end > Length(data, v) then Failure(IndexOutOfBounds)
    else
      var t := Text(data, v);
      assert t == data[v.offset..v.offset + Length(data, v)];
      assert forall k :: 0 <= k < end - begin ==> t[begin..end][k] == data[v.offset + begin..v.offset + end][k];
      assert t[begin..end] == data[v.offset + begin..v.offset + end];
      if v.offset + end == |data| then NewSuffix(data, v.offset + begin)
      else NewSubSequence(data, v.offset + begin, v.offset + end)
  }

  /** `toString`: appends `charAt(i)` for every i below `length()`. */
  method ToString(data: string, v: View) returns (s: string)
    requires ValidView(data, v)
    ensures s == data[v.offset..v.offset + Length(data, v)]
  {
    s := [];
    var n := Length(data, v);
    for i := 0 to n
      invariant s == Text(data, v)[..i]
    {
      var c := CharAt(data, v, i);
      s := s + [c.value];
    }
    assert Text(data, v)[..n] == Text(data, v);
  }

  /** The suffixes the collection's iterator hands out, in order. */
  function Suffixes(data: string): (r: seq<View>)
    ensures |r| == |data|
    ensures forall i :: 0 <= i < |r| ==> r[i] == Suffix(i) && ValidView(data, r[i])
  {
    seq(|data|, i => Suffix(i))
  }

  /** `SuffixCollection.size()` as written. */
  function SizeAsWritten(data: string): (n: int)
    ensures n == Length(data, Suffix(0)) - 1
    ensures n < |Suffixes(data)|
  {
    |data| - 1
  }

  /** The written `size()` is one less than the number of suffixes the iterator yields. */
  lemma SizeMismatch(data: string)
    ensures SizeAsWritten(data) == |Suffixes(data)| - 1
  {
  }

  /** `size()` as the `Collection` contract asks: the number of elements iterated. */
  function Size(data: string): (n: nat)
    ensures n == |Suffixes(data)|
  {
    |data|
  }

  /** The anonymous iterator of `SuffixCollection`. */
  class SuffixIterator {
    const data: string
    var index: int

    constructor (data: string)
      ensures this.data == data && index == 0
    {
      this.data := data;
      index := 0;
    }

    method HasNext() returns (b: bool)
      ensures b <==> index < |data|
    {
      return index < |data|;
    }

    /** Builds `Suffix(index)` (which rejects an index past the end) and then advances. */
    method Next() returns (r: Result<View>)
      modifies this
      ensures 0 <= old(index) <= |data| ==> r == Success(Suffix(old(index))) && index == old(index) + 1
      ensures !(0 <= old(index) <= |data|) ==> r == Failure(IndexOutOfBounds) && index == old(index)
    {
      r := NewSuffix(data, index);
      if r.Failure? {
        return;
      }
      index := index + 1;
    }
  }

  /** Running the iterator to exhaustion yields the suffixes at offsets 0 .. |data| - 1. */
  method IterateAll(data: string) returns (views: seq<View>)
    ensures views == Suffixes(data)
  {
    var it := new SuffixIterator(data);
    views := [];
    var more := it.HasNext();
    while more
      invariant 0 <= it.index <= |data| && it.data == data
      invariant views == Suffixes(data)[..it.index]
      invariant more <==> it.index < |data|
      decreases |data| - it.index
    {
      var v := it.Next();
      views := views + [v.value];
      more := it.HasNext();
    }
  }
}
