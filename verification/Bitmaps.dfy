/** 64-bit words as bit sequences, and arrays of words read as one long bit sequence. */
module Bitmaps {
  import opened Arith

  type Word = s: seq<bool> | |s| == 64 witness seq(64, i => false)

  function Zero(): Word { seq(64, i => false) }

  function Shl(w: Word, n: nat): Word { seq(64, i requires 0 <= i < 64 => i >= n && w[i - n]) }

  function Shr(w: Word, n: nat): Word { seq(64, i requires 0 <= i < 64 => i + n < 64 && w[i + n]) }

  function Or(a: Word, b: Word): Word { seq(64, i requires 0 <= i < 64 => a[i] || b[i]) }

  /** `w & ((1 << n) - 1)` */
  function KeepLow(w: Word, n: nat): Word { seq(64, i requires 0 <= i < 64 => i < n && w[i]) }

  /** Bit k of the whole array; there is nothing outside it. */
  predicate Bit(words: seq<Word>, k: int) {
    0 <= k < 64 * |words| && words[k / 64][k % 64]
  }

  /** A bit sequence of `count` bits moved by `shift` places, vacated places being clear. */
  predicate ShiftedBit(words: seq<Word>, count: int, shift: int, k: int) {
    0 <= k < count && 0 <= k - shift < count && Bit(words, k - shift)
  }

  function WordsOf(count: nat): nat { (count + 63) / 64 }

  function CarriedUp(words: seq<Word>, i: nat, part: nat): Word
    requires i < |words| && part < 64
  {
    Or(Shl(words[i], part), if i > 0 then Shr(words[i - 1], 64 - part) else Zero())
  }

  function CarriedDown(words: seq<Word>, count: nat, i: nat, part: nat): Word
    requires i < count <= |words| && part < 64
  {
    Or(Shr(words[i], part), if i + 1 < count then Shl(words[i + 1], 64 - part) else Zero())
  }

  ghost predicate SameFrom(a: seq<Word>, b: seq<Word>, words: nat) {
    |a| == |b| && forall i :: words <= i < |a| ==> b[i] == a[i]
  }

  ghost predicate MovedUp(a: seq<Word>, b: seq<Word>, words: nat, whole: nat)
    requires words <= |a|
  {
    SameFrom(a, b, words) && forall i :: 0 <= i < words ==> b[i] == if i >= whole then a[i - whole] else Zero()
  }

  ghost predicate MovedDown(a: seq<Word>, b: seq<Word>, words: nat, whole: nat)
    requires words <= |a|
  {
    SameFrom(a, b, words) && forall i :: 0 <= i < words ==> b[i] == if i + whole < words then a[i + whole] else Zero()
  }

  ghost predicate AllCarriedUp(a: seq<Word>, b: seq<Word>, words: nat, part: nat)
    requires words <= |a| && part < 64
  {
    SameFrom(a, b, words) && forall i :: 0 <= i < words ==> b[i] == CarriedUp(a, i, part)
  }

  ghost predicate AllCarriedDown(a: seq<Word>, b: seq<Word>, words: nat, part: nat)
    requires words <= |a| && part < 64
  {
    SameFrom(a, b, words) && forall i :: 0 <= i < words ==> b[i] == CarriedDown(a, words, i, part)
  }

  // ---------------------------------------------------------------- whole words

  method MoveWordsUp(bitmap: array<Word>, words: nat, whole: nat)
    requires words <= bitmap.Length
    modifies bitmap
    ensures MovedUp(old(bitmap[..]), bitmap[..], words, whole)
  {
    var i: int := words - 1;
    while i >= 0
      invariant -1 <= i < words
      invariant forall j :: i < j < words ==> bitmap[j] == if j >= whole then old(bitmap[j - whole]) else Zero()
      invariant forall j :: 0 <= j <= i ==> bitmap[j] == old(bitmap[j])
      invariant SameFrom(old(bitmap[..]), bitmap[..], words)
    {
      if i >= whole {
        bitmap[i] := bitmap[i - whole];
      } else {
        bitmap[i] := Zero();
      }
      i := i - 1;
    }
  }

  method MoveWordsDown(bitmap: array<Word>, words: nat, whole: nat)
    requires words <= bitmap.Length
    modifies bitmap
    ensures MovedDown(old(bitmap[..]), bitmap[..], words, whole)
  {
    var i := 0;
    while i < words
      invariant 0 <= i <= words
      invariant forall j :: 0 <= j < i ==> bitmap[j] == if j + whole < words then old(bitmap[j + whole]) else Zero()
      invariant forall j :: i <= j < words ==> bitmap[j] == old(bitmap[j])
      invariant SameFrom(old(bitmap[..]), bitmap[..], words)
    {
      if i + whole < words {
        bitmap[i] := bitmap[i + whole];
      } else {
        bitmap[i] := Zero();
      }
      i := i + 1;
    }
  }

  // ---------------------------------------------------------------- part words

  method CarryUp(bitmap: array<Word>, words: nat, part: nat)
    requires words <= bitmap.Length && part < 64
    modifies bitmap
    ensures AllCarriedUp(old(bitmap[..]), bitmap[..], words, part)
  {
    ghost var was := bitmap[..];
    var i: int := words - 1;
    while i >= 0
      invariant -1 <= i < words
      invariant forall j :: i < j < words ==> bitmap[j] == CarriedUp(was, j, part)
      invariant forall j :: 0 <= j <= i ==> bitmap[j] == was[j]
      invariant SameFrom(was, bitmap[..], words)
    {
      var carry := Zero();
      if i > 0 {
        carry := Shr(bitmap[i - 1], 64 - part);
      }
      bitmap[i] := Or(Shl(bitmap[i], part), carry);
      i := i - 1;
    }
  }

  method CarryDown(bitmap: array<Word>, words: nat, part: nat)
    requires words <= bitmap.Length && part < 64
    modifies bitmap
    ensures AllCarriedDown(old(bitmap[..]), bitmap[..], words, part)
  {
    ghost var was := bitmap[..];
    var i := 0;
    while i < words
      invariant 0 <= i <= words
      invariant forall j :: 0 <= j < i ==> bitmap[j] == CarriedDown(was, words, j, part)
      invariant forall j :: i <= j < words ==> bitmap[j] == was[j]
      invariant SameFrom(was, bitmap[..], words)
    {
      var carry := Zero();
      if i + 1 < words {
        carry := Shl(bitmap[i + 1], 64 - part);
      }
      bitmap[i] := Or(Shr(bitmap[i], part), carry);
      i := i + 1;
    }
  }

  // ---------------------------------------------------------------- what the loops do to the bits

  lemma {:induction false} BitAt(words: seq<Word>, i: int, r: int)
    requires 0 <= r < 64
    ensures Bit(words, 64 * i + r) <==> 0 <= i < |words| && words[i][r]
  {
    DivUnique(64 * i + r, 64, i, r);
  }

  lemma {:induction false} WholeUp(a: seq<Word>, b: seq<Word>, words: nat, whole: nat, i: int, r: nat)
    requires words <= |a| && i < words && r < 64 && MovedUp(a, b, words, whole)
    ensures Bit(b, 64 * i + r) <==> Bit(a, 64 * (i - whole) + r)
  {
    hide Bit;
    BitAt(b, i, r);
    BitAt(a, i - whole, r);
  }

  lemma {:induction false} WholeDown(a: seq<Word>, b: seq<Word>, words: nat, whole: nat, i: nat, r: nat)
    requires words <= |a| && r < 64 && MovedDown(a, b, words, whole)
    ensures |a| == |b|
    ensures Bit(b[..words], 64 * i + r) <==> Bit(a[..words], 64 * (i + whole) + r)
  {
    hide Bit;
    BitAt(b[..words], i, r);
    BitAt(a[..words], i + whole, r);
  }

  lemma {:induction false} CarriedUpBit(words: seq<Word>, i: nat, part: nat, r: nat)
    requires i < |words| && part < 64 && r < 64
    ensures CarriedUp(words, i, part)[r]
            <==> if r >= part then words[i][r - part] else i > 0 && words[i - 1][64 + r - part]
  {
  }

  lemma {:induction false} CarriedDownBit(words: seq<Word>, count: nat, i: nat, part: nat, r: nat)
    requires i < count <= |words| && part < 64 && r < 64
    ensures CarriedDown(words, count, i, part)[r] <==>
            if r + part < 64 then words[i][r + part] else i + 1 < count && words[i + 1][r + part - 64]
  {
  }

  lemma {:induction false} PartUp(b: seq<Word>, c: seq<Word>, words: nat, part: nat, i: nat, r: nat)
    requires i < words <= |b| && part < 64 && r < 64 && AllCarriedUp(b, c, words, part)
    ensures Bit(c, 64 * i + r) <==> Bit(b, 64 * i + r - part)
  {
    hide Bit, CarriedUp;
    BitAt(c, i, r);
    CarriedUpBit(b, i, part, r);
    if r >= part {
      BitAt(b, i, r - part);
    } else {
      BitAt(b, i - 1, 64 + r - part);
    }
  }

  lemma {:induction false} PartDown(b: seq<Word>, c: seq<Word>, words: nat, part: nat, i: nat, r: nat)
    requires i < words <= |b| && part < 64 && r < 64 && AllCarriedDown(b, c, words, part)
    ensures Bit(c, 64 * i + r) <==> Bit(b[..words], 64 * i + r + part)
  {
    hide Bit, CarriedDown;
    BitAt(c, i, r);
    CarriedDownBit(b, words, i, part, r);
    if r + part < 64 {
      BitAt(b[..words], i, r + part);
    } else {
      BitAt(b[..words], i + 1, r + part - 64);
    }
  }

  lemma {:induction false} ClearedIsShift(a: seq<Word>, b: seq<Word>, count: nat, shift: int)
    requires 0 < count && WordsOf(count) <= |a| && SameFrom(Trimmed(a, count), b, WordsOf(count))
    requires forall i :: 0 <= i < WordsOf(count) ==> b[i] == Zero()
    requires shift >= count || -shift >= count
    ensures IsShift(a, b, count, shift)
  {
  }

  /** Clearing the bits at and above `count` in the last of its words. */
  function Trimmed(words: seq<Word>, count: nat): (r: seq<Word>)
    requires 0 < count && WordsOf(count) <= |words|
    ensures |r| == |words|
  {
    var last := WordsOf(count) - 1;
    if count % 64 > 0 then words[last := KeepLow(words[last], count % 64)] else words
  }

  lemma {:induction false} TrimmedBit(words: seq<Word>, count: nat, i: int, r: nat)
    requires 0 < count && WordsOf(count) <= |words| && i < WordsOf(count) && r < 64
    ensures Bit(Trimmed(words, count), 64 * i + r) <==> 64 * i + r < count && Bit(words, 64 * i + r)
  {
    hide Bit;
    BitAt(words, i, r);
    BitAt(Trimmed(words, count), i, r);
  }

  method Trim(bitmap: array<Word>, count: nat)
    requires 0 < count && WordsOf(count) <= bitmap.Length
    modifies bitmap
    ensures bitmap[..] == Trimmed(old(bitmap[..]), count)
  {
    var tail := count % 64;
    if tail > 0 {
      var last := WordsOf(count) - 1;
      bitmap[last] := KeepLow(bitmap[last], tail);
    }
  }

  // ---------------------------------------------------------------- the shift

  /** b is a with its first `count` bits moved by `shift`; words past them are as they were. */
  ghost predicate IsShift(a: seq<Word>, b: seq<Word>, count: nat, shift: int) {
    && |a| == |b|
    && (forall k :: 0 <= k < 64 * WordsOf(count) ==> (Bit(b, k) <==> ShiftedBit(a, count, shift, k)))
    && (forall i :: WordsOf(count) <= i < |a| ==> b[i] == a[i])
  }

  lemma {:induction false} ShiftUpBit(
      a: seq<Word>, b: seq<Word>, c: seq<Word>, d: seq<Word>, count: nat, shift: nat, k: nat)
    requires 0 < shift < count && WordsOf(count) <= |a| && |a| == |b| == |c| && k < 64 * WordsOf(count)
    requires MovedUp(Trimmed(a, count), b, WordsOf(count), shift / 64) && |b| == |a|
    requires AllCarriedUp(b, c, WordsOf(count), shift % 64)
    requires d == Trimmed(c, count)
    ensures Bit(d, k) <==> ShiftedBit(a, count, shift, k)
  {
    hide Bit, Trimmed, CarriedUp, MovedUp, AllCarriedUp;
    var words, whole, part := WordsOf(count), shift / 64, shift % 64;
    var k' := k - part;
    var i, r := k' / 64, k' % 64;
    TrimmedBit(c, count, k / 64, k % 64);
    PartUp(b, c, words, part, k / 64, k % 64);
    WholeUp(Trimmed(a, count), b, words, whole, i, r);
    TrimmedBit(a, count, i - whole, r);
    assert 64 * (i - whole) + r == k - shift;
    if k < shift {
      NoBitBelowZero(a, k - shift);
    }
  }

  lemma {:induction false} NoBitBelowZero(a: seq<Word>, k: int)
    requires k < 0
    ensures !Bit(a, k)
  {
  }

  lemma {:induction false} PrefixBit(a: seq<Word>, words: nat, i: int, r: nat)
    requires words <= |a| && r < 64
    ensures Bit(a[..words], 64 * i + r) <==> i < words && Bit(a, 64 * i + r)
  {
    hide Bit;
    BitAt(a[..words], i, r);
    BitAt(a, i, r);
  }

  lemma {:induction false} ShiftDownBit(
      a: seq<Word>, b: seq<Word>, c: seq<Word>, d: seq<Word>, count: nat, shift: nat, k: nat)
    requires 0 < shift < count && WordsOf(count) <= |a| && |a| == |b| == |c| && k < 64 * WordsOf(count)
    requires MovedDown(Trimmed(a, count), b, WordsOf(count), shift / 64) && |b| == |a|
    requires AllCarriedDown(b, c, WordsOf(count), shift % 64)
    requires d == Trimmed(c, count)
    ensures Bit(d, k) <==> ShiftedBit(a, count, 0 - shift, k)
  {
    hide Bit, Trimmed, CarriedDown, MovedDown, AllCarriedDown;
    var words, whole, part := WordsOf(count), shift / 64, shift % 64;
    var k' := k + part;
    var i, r := k' / 64, k' % 64;
    TrimmedBit(c, count, k / 64, k % 64);
    PartDown(b, c, words, part, k / 64, k % 64);
    WholeDown(Trimmed(a, count), b, words, whole, i, r);
    PrefixBit(Trimmed(a, count), words, i + whole, r);
    assert 64 * (i + whole) + r == k + shift;
    if i + whole < words {
      TrimmedBit(a, count, i + whole, r);
    }
  }

  lemma {:induction false} ShiftUpIsShift(a: seq<Word>, b: seq<Word>, c: seq<Word>, count: nat, shift: nat)
    requires 0 < shift < count && WordsOf(count) <= |a|
    requires MovedUp(Trimmed(a, count), b, WordsOf(count), shift / 64) && |b| == |a|
    requires AllCarriedUp(b, c, WordsOf(count), shift % 64)
    ensures IsShift(a, Trimmed(c, count), count, shift)
  {
    forall k | 0 <= k < 64 * WordsOf(count)
      ensures Bit(Trimmed(c, count), k) <==> ShiftedBit(a, count, shift, k)
    {
      ShiftUpBit(a, b, c, Trimmed(c, count), count, shift, k);
    }
    hide Bit, ShiftedBit, CarriedUp;
  }

  lemma {:induction false} ShiftDownIsShift(a: seq<Word>, b: seq<Word>, c: seq<Word>, count: nat, shift: nat)
    requires 0 < shift < count && WordsOf(count) <= |a|
    requires MovedDown(Trimmed(a, count), b, WordsOf(count), shift / 64) && |b| == |a|
    requires AllCarriedDown(b, c, WordsOf(count), shift % 64)
    ensures IsShift(a, Trimmed(c, count), count, 0 - shift)
  {
    forall k | 0 <= k < 64 * WordsOf(count)
      ensures Bit(Trimmed(c, count), k) <==> ShiftedBit(a, count, 0 - shift, k)
    {
      ShiftDownBit(a, b, c, Trimmed(c, count), count, shift, k);
    }
    hide Bit, ShiftedBit, CarriedDown;
  }

  method Clear(bitmap: array<Word>, words: nat)
    requires words <= bitmap.Length
    modifies bitmap
    ensures forall j :: 0 <= j < words ==> bitmap[j] == Zero()
    ensures SameFrom(old(bitmap[..]), bitmap[..], words)
  {
    var i := 0;
    while i < words
      invariant 0 <= i <= words
      invariant forall j :: 0 <= j < i ==> bitmap[j] == Zero()
      invariant SameFrom(old(bitmap[..]), bitmap[..], words)
    {
      bitmap[i] := Zero();
      i := i + 1;
    }
  }

  lemma {:induction false} Unmoved(a: seq<Word>, words: nat)
    requires words <= |a|
    ensures MovedUp(a, a, words, 0) && MovedDown(a, a, words, 0)
  {
  }

  lemma {:induction false} Uncarried(a: seq<Word>, words: nat)
    requires words <= |a|
    ensures AllCarriedUp(a, a, words, 0) && AllCarriedDown(a, a, words, 0)
  {
  }

  method BitmapShift(bitmap: array<Word>, bitCount: int, shiftAmount: int)
    requires -0x8000_0000_0000_0000 <= shiftAmount < 0x8000_0000_0000_0000
    requires bitmap.Length == 0 || bitCount <= 64 * bitmap.Length
    modifies bitmap
    ensures bitmap.Length == 0 || bitCount <= 0 || shiftAmount == 0 ==> bitmap[..] == old(bitmap[..])
    ensures bitmap.Length > 0 && bitCount > 0 && shiftAmount != 0 ==>
              IsShift(old(bitmap[..]), bitmap[..], bitCount, shiftAmount)
  {
    hide MovedUp, MovedDown, AllCarriedUp, AllCarriedDown, SameFrom, IsShift, Trimmed;
    if bitmap.Length == 0 || bitCount <= 0 || shiftAmount == 0 {
      return;
    }
    var words := WordsOf(bitCount);
    ghost var a := bitmap[..];
    Trim(bitmap, bitCount);
    var shiftMag := if shiftAmount >= 0 then shiftAmount else -(shiftAmount + 1) + 1;
    if shiftMag >= bitCount {
      Clear(bitmap, words);
      ClearedIsShift(a, bitmap[..], bitCount, shiftAmount);
      return;
    }
    var wholeWords := shiftMag / 64;
    var partBits := shiftMag % 64;
    ghost var b, c;
    Unmoved(bitmap[..], words);
    if shiftAmount > 0 {
      if wholeWords > 0 {
        MoveWordsUp(bitmap, words, wholeWords);
      }
      b := bitmap[..];
      Uncarried(b, words);
      if partBits > 0 {
        CarryUp(bitmap, words, partBits);
      }
      c := bitmap[..];
      ShiftUpIsShift(a, b, c, bitCount, shiftMag);
    } else {
      if wholeWords > 0 {
        MoveWordsDown(bitmap, words, wholeWords);
      }
      b := bitmap[..];
      Uncarried(b, words);
      if partBits > 0 {
        CarryDown(bitmap, words, partBits);
      }
      c := bitmap[..];
      ShiftDownIsShift(a, b, c, bitCount, shiftMag);
    }
    Trim(bitmap, bitCount);
  }

  /** The three-word shift of the response records; a negative amount does nothing. */
  method BitmapShiftLeft(bitmap: array<Word>, shift: int)
    requires bitmap.Length == 3
    modifies bitmap
    ensures shift <= 0 ==> bitmap[..] == old(bitmap[..])
    ensures shift > 0 ==> IsShift(old(bitmap[..]), bitmap[..], 192, shift)
  {
    hide MovedUp, AllCarriedUp, SameFrom, IsShift;
    if shift <= 0 {
      return;
    }
    ghost var a := bitmap[..];
    if shift >= 192 {
      Clear(bitmap, 3);
      ClearedIsShift(a, bitmap[..], 192, shift);
      return;
    }
    var whole, part := shift / 64, shift % 64;
    Unmoved(a, 3);
    if whole > 0 {
      MoveWordsUp(bitmap, 3, whole);
    }
    ghost var b := bitmap[..];
    Uncarried(b, 3);
    if part > 0 {
      CarryUp(bitmap, 3, part);
    }
    ShiftUpIsShift(a, b, bitmap[..], 192, shift);
  }

  // ---------------------------------------------------------------- bitmaps as sequences of marks

  ghost function Marks(words: seq<Word>, n: nat): (m: seq<bool>)
    ensures |m| == n
  {
    seq(n, k => Bit(words, k))
  }

  lemma {:induction false} MarkedBit(a: seq<Word>, b: seq<Word>, m: nat)
    requires m < 64 * |a| && b == a[m / 64 := a[m / 64][m % 64 := true]]
    ensures forall k :: Bit(b, k) <==> k == m || Bit(a, k)
  {
  }

  lemma {:induction false} MarkedMarks(a: seq<Word>, b: seq<Word>, m: nat, n: nat)
    requires m < n <= 64 * |a| && b == a[m / 64 := a[m / 64][m % 64 := true]]
    ensures Marks(b, n) == Marks(a, n)[m := true]
  {
    MarkedBit(a, b, m);
    hide Bit;
  }
}
