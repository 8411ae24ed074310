/**
 * The two pieces of Rust's `str` that the handler relies on, stated on the
 * bytes of a string: `is_char_boundary` and range indexing `s[i..j]`, which
 * panics (here: yields `None`) when either end is not a char boundary.
 */
module RustStr {
  import opened Utf8
  import opened Seqs

  /** `b as i8`: the two's-complement reading of a byte. */
  function AsI8(b: byte): (v: int)
    ensures -0x80 <= v < 0x80
    ensures (v >= 0) == (b < 0x80)
  {
    if b < 0x80 then b else b - 0x100
  }

  /**
   * `str::is_char_boundary`: index 0 and the end of the string are
   * boundaries; an index inside the string is one unless the byte there is a
   * continuation byte (`b as i8 < -0x40`); an index past the end is not.
   */
  predicate IsCharBoundary(s: seq<byte>, index: nat) {
    if index == 0 then true
    else if index < |s| then AsI8(s[index]) >= -0x40
    else index == |s|
  }

  lemma BoundaryIffNotTail(s: seq<byte>, index: nat)
    requires 0 < index < |s|
    ensures IsCharBoundary(s, index) <==> !IsTail(s[index])
  {
  }

  /** `&s[begin..end]`, or `None` where Rust panics. */
  function Slice(s: seq<byte>, begin: nat, end: nat): (r: Option<seq<byte>>)
    ensures r.Some? <==> begin <= end <= |s| && IsCharBoundary(s, begin) && IsCharBoundary(s, end)
    ensures r.Some? ==> r.value == s[begin..end]
  {
    if begin <= end && IsCharBoundary(s, begin) && IsCharBoundary(s, end) then Some(s[begin..end])
    else None
  }

  /**
   * In well-formed UTF-8 text, byte 1 is a char boundary exactly when the
   * first char is a single byte, that is, when the first byte is below 0x80.
   */
  lemma {:induction false} SecondByteBoundary(s: seq<byte>)
    requires Valid(s) && |s| >= 1
    ensures IsCharBoundary(s, 1) <==> s[0] < 0x80
  {
    NextCharStart(s);
    if s[0] < 0x80 {
      assert CharLen(s) == 1;
      if |s| > 1 {
        BoundaryIffNotTail(s, 1);
      }
    } else {
      assert CharLen(s) >= 2 && IsTail(s[1]);
      BoundaryIffNotTail(s, 1);
    }
  }

  /**
   * What the handler's `s[0..1]` gives on well-formed, non-empty text: the
   * first byte when it is a whole char, and a panic when the first char is
   * longer than one byte.
   */
  lemma FirstByteSlice(s: seq<byte>)
    requires Valid(s) && s != []
    ensures Slice(s, 0, 1) == if s[0] < 0x80 then Some([s[0]]) else None
  {
    SecondByteBoundary(s);
    assert s[0..1] == [s[0]];
  }

  /** Inside a char, no index is a char boundary. */
  lemma BoundaryAfterFirstChar(s: seq<byte>, i: nat)
    requires CharLen(s) > 0 && 0 < i <= |s| && IsCharBoundary(s, i)
    ensures i >= CharLen(s)
  {
    if i < |s| {
      BoundaryIffNotTail(s, i);
    }
  }

  /** A char boundary of `s` at or after `i` is one of `s[i..]`, counted from `i`. */
  lemma BoundaryShift(s: seq<byte>, i: nat, k: nat)
    requires i <= k <= |s| && IsCharBoundary(s, k)
    ensures IsCharBoundary(s[i..], k - i)
  {
    if i < k < |s| {
      assert s[i..][k - i] == s[k];
    }
  }

  /** The first char of `s` is the first char of any prefix that holds it. */
  lemma CharLenPrefix(s: seq<byte>, m: nat)
    requires 0 < CharLen(s) <= m <= |s|
    ensures CharLen(s[..m]) == CharLen(s)
  {
    var n := CharLen(s);
    assert s[..m][..n] == s[..n];
    assert forall k :: 0 <= k < n ==> s[..m][k] == s[k];
  }

  /** Well-formed text cut at a char boundary leaves well-formed text on both sides. */
  lemma {:induction false} SplitValid(s: seq<byte>, i: nat)
    requires Valid(s) && i <= |s| && IsCharBoundary(s, i)
    ensures Valid(s[..i]) && Valid(s[i..])
    decreases |s|
  {
    if i > 0 {
      var n := CharLen(s);
      BoundaryAfterFirstChar(s, i);
      var t := s[n..];
      BoundaryShift(s, n, i);
      SplitValid(t, i - n);
      DropDrop(s, n, i - n);
      CharLenPrefix(s, i);
      TakeDrop(s, n, i);
    }
  }

  /** Rust's promise that a `str` slice is itself a `str`: slicing well-formed text yields well-formed text. */
  lemma SliceIsValid(s: seq<byte>, begin: nat, end: nat)
    requires Valid(s) && Slice(s, begin, end).Some?
    ensures Valid(Slice(s, begin, end).value)
  {
    var t, k := s[begin..], end - begin;
    SplitValid(s, begin);
    BoundaryShift(s, begin, end);
    SplitValid(t, k);
    DropTake(s, begin, end);
  }

  datatype Option<T> = None | Some(value: T)
}
