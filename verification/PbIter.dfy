/** The field iterator of pb_common.c and the bitmap of required fields that pb_decode_noinit keeps with it. */
module PbIter {
  import opened Wrappers
  import opened PbTypes
  import opened PbSpec
  import Bits

  // ----- where fields lie in the struct -----

  /** How far the data of one field reaches (static fields only). */
  function Extent(f: Field): nat {
    if f.htype.Repeated? then f.dataSize * f.arraySize else f.dataSize
  }

  /** The offset of the data of entry i that the iterator accumulates. */
  function DataAt(d: seq<Field>, i: nat): nat
    requires i < |d|
  {
    if i == 0 then d[0].dataOffset
    else if Joined(d, i) then DataAt(d, i - 1)
    else DataAt(d, i - 1) + Extent(d[i-1]) + d[i].dataOffset
  }

  /** The offset of its has_, _count or which_ member; inside a union that of the union's first member. */
  function SizeAt(d: seq<Field>, i: nat): int
    requires i < |d|
  {
    DataAt(d, i) + d[Head(d, i)].sizeOffset
  }

  function RequiredBefore(d: seq<Field>, i: nat): (n: nat)
    requires i <= |d|
    ensures n <= i
  {
    if i == 0 then 0 else RequiredBefore(d, i - 1) + if d[i-1].htype.Required? then 1 else 0
  }

  /** The offsets that the generator's macros compute from a struct whose field i starts at at[i] (pb.h:391-397):
      the distance from the end of the field before, or the mark of a union member, which starts where that does. */
  ghost predicate LaidOut(d: seq<Field>, at: seq<nat>) {
    && |at| == |d|
    && forall i :: 0 <= i < |d| ==>
         if Joined(d, i) then at[i] == at[i-1]
         else d[i].dataOffset == at[i] - if i == 0 then 0 else at[i-1] + Extent(d[i-1])
  }

  /** The iterator finds every field where the struct has it. */
  lemma {:induction false} IteratorFindsFields(d: seq<Field>, at: seq<nat>, i: nat)
    requires LaidOut(d, at) && i < |d|
    ensures DataAt(d, i) == at[i]
  {
    if i > 0 {
      IteratorFindsFields(d, at, i - 1);
    }
  }

  lemma {:induction false} HeadShares(d: seq<Field>, i: nat)
    requires i < |d|
    ensures DataAt(d, Head(d, i)) == DataAt(d, i) && Head(d, Head(d, i)) == Head(d, i)
  {
    if Joined(d, i) {
      HeadShares(d, i - 1);
    }
  }

  /** The members of one union share their memory and their which_ variable. */
  lemma UnionSharesMemory(d: seq<Field>, i: nat, j: nat)
    requires i < |d| && j < |d| && SameUnion(d, i, j)
    ensures DataAt(d, i) == DataAt(d, j) && SizeAt(d, i) == SizeAt(d, j)
  {
    HeadShares(d, i);
    HeadShares(d, j);
  }

  // ----- the iterator -----

  /** pb_field_iter_t.  Position |d| of an empty descriptor is its terminator. */
  class FieldIter {
    const start: seq<Field>
    const destStruct: int
    var pos: nat
    var requiredFieldIndex: nat
    var pData: int
    var pSize: int

    /** Every field of the iterator is determined by its position. */
    ghost predicate Valid()
      reads this
    {
      if start == [] then pos == 0 && requiredFieldIndex == 0
      else
        && pos < |start|
        && requiredFieldIndex == RequiredBefore(start, pos)
        && pData == destStruct + DataAt(start, pos)
        && pSize == destStruct + SizeAt(start, pos)
    }

    /** The tag under the iterator; 0 at the terminator. */
    function Tag(): nat
      requires pos <= |start|
      reads this
    {
      if pos < |start| then start[pos].tag else 0
    }

    constructor (fields: seq<Field>, dest: int)
      ensures Valid() && start == fields && destStruct == dest && pos == 0
    {
      start, destStruct, pos, requiredFieldIndex, pData, pSize := fields, dest, 0, 0, dest, dest;
      new;
      var _ := Begin();
    }

    /** pb_field_iter_begin */
    method Begin() returns (ok: bool)
      modifies this
      ensures Valid() && pos == 0 && (ok <==> start != [])
    {
      pos, requiredFieldIndex := 0, 0;
      if start == [] {
        pData, pSize, ok := destStruct, destStruct, false;
      } else {
        pData := destStruct + start[0].dataOffset;
        pSize := pData + start[0].sizeOffset;
        ok := true;
      }
    }

    /** pb_field_iter_next: one entry on, or back to the first with result false after the last. */
    method Next() returns (more: bool)
      requires Valid()
      modifies this
      ensures Valid()
      ensures more <==> old(pos) + 1 < |start|
      ensures pos == if more then old(pos) + 1 else 0
      ensures start == [] ==> pData == old(pData) && pSize == old(pSize)
    {
      if start == [] {
        return false;
      }
      var prev := start[pos];
      pos := pos + 1;
      if pos == |start| {
        var _ := Begin();
        return false;
      }
      if prev.htype.Oneof? && start[pos].htype.Oneof? && start[pos].dataOffset == PB_SIZE_MAX {
        return true;
      }
      var prevSize := prev.dataSize;
      if prev.htype.Repeated? {
        prevSize := prevSize * prev.arraySize;
      }
      if prev.htype.Required? {
        requiredFieldIndex := requiredFieldIndex + 1;
      }
      pData := pData + prevSize + start[pos].dataOffset;
      pSize := pData + start[pos].sizeOffset;
      return true;
    }

    /** pb_field_iter_find: once around from the current position.  It succeeds if and only if some entry has the
        tag, and stops there; otherwise the whole iterator is as before.  Only the empty descriptor has a tag 0. */
    method Find(tag: nat) returns (found: bool)
      requires Valid()
      requires forall i :: 0 <= i < |start| ==> start[i].tag != 0
      modifies this
      ensures Valid()
      ensures start != [] ==> (found <==> exists i :: 0 <= i < |start| && start[i].tag == tag)
      ensures start == [] ==> (found <==> tag == 0)
      ensures found ==> Tag() == tag
      ensures !found ==> pos == old(pos) && requiredFieldIndex == old(requiredFieldIndex)
      ensures !found ==> pData == old(pData) && pSize == old(pSize)
    {
      var from := pos;
      ghost var wrapped := false;
      while true
        invariant Valid()
        invariant start == [] ==> pos == from && !wrapped && pData == old(pData) && pSize == old(pSize)
        invariant start != [] ==> if wrapped then pos < from else from <= pos
        invariant forall k :: from <= k < |start| && (wrapped || k < pos) ==> start[k].tag != tag
        invariant forall k :: 0 <= k < pos && wrapped ==> start[k].tag != tag
        decreases if wrapped then 0 else 1, |start| - pos
      {
        if Tag() == tag {
          return true;
        }
        var more := Next();
        if !more {
          wrapped := true;
        }
        if pos == from {
          return false;
        }
      }
    }
  }

  // ----- the bitmap of required fields -----

  /** The numbers, among the required fields, of the required entries in `seen`. */
  ghost function Numbers(d: seq<Field>, seen: set<nat>): set<nat> {
    set i | i in seen && i < |d| && d[i].htype.Required? :: RequiredBefore(d, i)
  }

  lemma {:induction false} NumberGrows(d: seq<Field>, i: nat, j: nat)
    requires i < j <= |d| && d[i].htype.Required?
    ensures RequiredBefore(d, i) < RequiredBefore(d, j)
    decreases j
  {
    if i + 1 < j { NumberGrows(d, i, j - 1); }
  }

  lemma {:induction false} NumberOwner(d: seq<Field>, n: nat, k: nat) returns (i: nat)
    requires n <= |d| && k < RequiredBefore(d, n)
    ensures i < n && d[i].htype.Required? && RequiredBefore(d, i) == k
  {
    if RequiredBefore(d, n - 1) == k {
      i := n - 1;
    } else {
      i := NumberOwner(d, n - 1, k);
    }
  }

  lemma NumberOnce(d: seq<Field>, seen: set<nat>, i: nat)
    requires i < |d| && d[i].htype.Required? && i !in seen
    ensures RequiredBefore(d, i) !in Numbers(d, seen)
  {
    if RequiredBefore(d, i) in Numbers(d, seen) {
      var j: nat :| j in seen && j < |d| && d[j].htype.Required? && RequiredBefore(d, j) == RequiredBefore(d, i);
      if i < j { NumberGrows(d, i, j); } else if j < i { NumberGrows(d, j, i); }
    }
  }

  /** Required fields are numbered without gaps, so all were seen exactly when all their numbers were. */
  lemma AllNumbersSeen(d: seq<Field>, seen: set<nat>)
    ensures AllRequired(d, seen) <==> forall k :: 0 <= k < RequiredBefore(d, |d|) ==> k in Numbers(d, seen)
  {
    if AllRequired(d, seen) {
      forall k | 0 <= k < RequiredBefore(d, |d|)
        ensures k in Numbers(d, seen)
      {
        var i := NumberOwner(d, |d|, k);
      }
    } else {
      var i :| 0 <= i < |d| && d[i].htype.Required? && i !in seen;
      NumberGrows(d, i, |d|);
      NumberOnce(d, seen, i);
    }
  }

  /** fields_seen: two 32-bit words whose bits are the numbers in r. */
  ghost predicate HoldsBits(words: seq<nat>, r: set<nat>) {
    && |words| == 2 && words[0] < Bits.Pow2(32) && words[1] < Bits.Pow2(32)
    && forall k :: 0 <= k < 64 ==> (Bits.Bit(words[k/32], k % 32) <==> k in r)
  }

  lemma NoBitsHeld()
    ensures HoldsBits([0, 0], {})
  {
    forall k | 0 <= k < 64 ensures !Bits.Bit(0, k % 32) { Bits.NoBits(k % 32); }
  }

  function Marked(words: seq<nat>, index: nat): seq<nat>
    requires index / 32 < |words|
  {
    words[index / 32 := Bits.Or(words[index / 32], Bits.Shl(1, index % 32, 32))]
  }

  lemma MarkBit(word: nat, j: nat, i: nat)
    requires word < Bits.Pow2(32) && j < 32
    ensures Bits.Or(word, Bits.Shl(1, j, 32)) < Bits.Pow2(32)
    ensures Bits.Bit(Bits.Or(word, Bits.Shl(1, j, 32)), i) <==> Bits.Bit(word, i) || i == j
  {
    MaskValue(j);
    Bits.OrBound(word, Bits.Pow2(j), 32);
    Bits.OrBit(word, Bits.Pow2(j), i);
    Bits.OneBit(j, i);
  }

  lemma MarkAdds(words: seq<nat>, index: nat, r: set<nat>)
    requires index < MAX_REQUIRED && HoldsBits(words, r)
    ensures HoldsBits(Marked(words, index), r + {index})
  {
    MarkBit(words[index / 32], index % 32, 0);
    forall k | 0 <= k < 64
      ensures Bits.Bit(Marked(words, index)[k/32], k % 32) <==> k in r + {index}
    {
      MarkBit(words[index / 32], index % 32, k % 32);
    }
  }

  /** The marking step of the decoding loop: fields_seen[index >> 5] |= 1 << (index & 31). */
  method MarkSeen(fieldsSeen: array<nat>, index: nat, ghost r: set<nat>)
    requires index < MAX_REQUIRED && HoldsBits(fieldsSeen[..], r)
    modifies fieldsSeen
    ensures HoldsBits(fieldsSeen[..], r + {index})
  {
    ghost var was := fieldsSeen[..];
    MarkAdds(was, index, r);
    var tmp := Bits.Shl(1, index % 32, 32);
    fieldsSeen[index / 32] := Bits.Or(fieldsSeen[index / 32], tmp);
    assert fieldsSeen[..] == Marked(was, index);
  }

  lemma MaskValue(j: nat)
    requires j < 32
    ensures Bits.Shl(1, j, 32) == Bits.Pow2(j) < Bits.Pow2(32)
  {
    Bits.PowMonotone(j, 32);
    Bits.Remainder(Bits.Pow2(j), Bits.Pow2(32), 0, Bits.Pow2(j));
    assert 1 * Bits.Pow2(j) == Bits.Pow2(j);
  }

  const ALL_BITS: nat := 0xFFFF_FFFF

  /** allbits >> s keeps the low 32 - s bits. */
  lemma LowMask(s: nat)
    requires s <= 32
    ensures Bits.Shr(ALL_BITS, s) == Bits.Pow2(32 - s) - 1
  {
    Pow2Of32();
    ShiftOnes(32, s);
  }

  lemma Pow2Of32()
    ensures Bits.Pow2(32) == U32
  {
    assert Bits.Pow2(8) == 256 by { assert Bits.Pow2(4) == 16; }
    Bits.PowSum(8, 8);
    Bits.PowSum(16, 16);
  }

  lemma {:induction false} ShiftOnes(n: nat, s: nat)
    requires s <= n
    ensures Bits.Shr(Bits.Pow2(n) - 1, s) == Bits.Pow2(n - s) - 1
    decreases s
  {
    if s > 0 {
      assert Bits.Pow2(n) - 1 == 1 + 2 * (Bits.Pow2(n - 1) - 1);
      Bits.HalfOf(1, Bits.Pow2(n - 1) - 1);
      ShiftOnes(n - 1, s - 1);
    }
  }

  lemma WordComplete(w: nat, n: nat)
    requires w < Bits.Pow2(32) && n <= 32 && Bits.NoneFrom(w, n, 32)
    ensures w == Bits.Shr(ALL_BITS, 32 - n) <==> Bits.AllSet(w, n)
  {
    LowMask(32 - n);
    Bits.MaskComplete(w, n, 32);
  }

  /** What the final check of pb_decode_noinit comes to.  Undefined: it reads behind the bitmap, or shifts a 32-bit
      word by 32. */
  datatype Verdict = Complete | Missing | Undefined

  /** The counts of required fields that the bitmap can check. */
  predicate Countable(count: nat) {
    count < MAX_REQUIRED && count != 32
  }

  /** The last comparison reads a word of the bitmap and shifts by less than its width for these counts alone. */
  lemma LastWordInBounds(count: nat)
    requires count > 0
    ensures Countable(count) <==> count / 32 < 2 && 32 - count % 32 < 32
  {
  }

  /** The descriptors whose required fields the bitmap can check, at every depth. */
  ghost predicate Checkable(d: seq<Field>)
    decreases d
  {
    && Countable(RequiredBefore(d, |d|))
    && forall i :: 0 <= i < |d| ==> Checkable(d[i].sub)
  }

  /** A message of n required integers. */
  function RequiredNumbers(n: nat): (d: seq<Field>)
    ensures |d| == n
  {
    seq(n, i requires 0 <= i < n => Field(i + 1, Varint, Required, 0, 0, 4, 0, [], None))
  }

  lemma {:induction false} CountNumbers(n: nat, i: nat)
    requires i <= n
    ensures RequiredBefore(RequiredNumbers(n), i) == i
  {
    if i > 0 {
      CountNumbers(n, i - 1);
    }
  }

  /** With as many tags as there are, every count occurs; so well-formed descriptors of 32 and of 64 required fields
      are beyond the check. */
  lemma NumbersCheckable(n: nat)
    requires n < 0x2000_0000
    ensures var d := RequiredNumbers(n);
            WfDesc(d) && RequiredBefore(d, |d|) == n && (Checkable(d) <==> n < 64 && n != 32)
  {
    var d := RequiredNumbers(n);
    CountNumbers(n, n);
    forall i | 0 <= i < n
      ensures WfField(d[i]) && Checkable(d[i].sub)
    {
      assert d[i].sub == [];
    }
  }

  /** Whether all required fields that have a bit were seen. */
  ghost predicate BitsComplete(d: seq<Field>, seen: set<nat>) {
    forall i :: 0 <= i < |d| && d[i].htype.Required? && RequiredBefore(d, i) < MAX_REQUIRED ==> i in seen
  }

  /** The final check of pb_decode_noinit.  It fails if and only if one of the first 64 required fields is missing.
      Otherwise it passes for the counts that the bitmap can check, and for the others its behaviour is undefined. */
  method CheckRequired(iter: FieldIter, fieldsSeen: array<nat>, ghost seen: set<nat>) returns (v: Verdict)
    requires iter.Valid() && HoldsBits(fieldsSeen[..], Numbers(iter.start, seen))
    requires forall i :: 0 <= i < |iter.start| ==> iter.start[i].tag != 0
    modifies iter
    ensures var count := RequiredBefore(iter.start, |iter.start|);
            && (v.Missing? <==> !BitsComplete(iter.start, seen))
            && (v.Undefined? <==> BitsComplete(iter.start, seen) && !Countable(count))
            && (Countable(count) ==> (v.Complete? <==> AllRequired(iter.start, seen)))
  {
    ghost var d := iter.start;
    var reqFieldCount := iter.requiredFieldIndex;
    var lastRequired := iter.start == [] || iter.start[iter.pos].htype.Required?;
    var more := iter.Next();
    while more
      invariant iter.Valid()
      invariant more ==> d != [] && 0 < iter.pos
      invariant d != [] && !more ==> reqFieldCount == RequiredBefore(d, |d| - 1) && iter.pos == 0
      invariant d != [] && !more ==> (lastRequired <==> d[|d|-1].htype.Required?)
      invariant d == [] ==> reqFieldCount == 0
      decreases more, |d| - iter.pos
    {
      reqFieldCount := iter.requiredFieldIndex;
      lastRequired := iter.start[iter.pos].htype.Required?;
      more := iter.Next();
    }
    if lastRequired && iter.Tag() != 0 {
      reqFieldCount := reqFieldCount + 1;
    }
    assert reqFieldCount == RequiredBefore(d, |d|);
    AllNumbersSeen(d, seen);
    FirstNumbersSeen(d, seen);
    NumbersBelow(d, seen);
    v := TestWords(fieldsSeen, reqFieldCount, Numbers(d, seen));
  }

  lemma NumbersBelow(d: seq<Field>, seen: set<nat>)
    ensures forall k :: k in Numbers(d, seen) ==> k < RequiredBefore(d, |d|)
  {
    forall i | i in seen && i < |d| && d[i].htype.Required?
      ensures RequiredBefore(d, i) < RequiredBefore(d, |d|)
    {
      NumberGrows(d, i, |d|);
    }
  }

  /** All numbers that have a bit and belong to a required field are in r. */
  ghost predicate FirstIn(count: nat, r: set<nat>) {
    forall k :: 0 <= k < count && k < MAX_REQUIRED ==> k in r
  }

  lemma FirstNumbersSeen(d: seq<Field>, seen: set<nat>)
    ensures BitsComplete(d, seen) <==> FirstIn(RequiredBefore(d, |d|), Numbers(d, seen))
  {
    if BitsComplete(d, seen) {
      forall k | 0 <= k < RequiredBefore(d, |d|) && k < MAX_REQUIRED
        ensures k in Numbers(d, seen)
      {
        var i := NumberOwner(d, |d|, k);
      }
    } else {
      var i :| 0 <= i < |d| && d[i].htype.Required? && RequiredBefore(d, i) < MAX_REQUIRED && i !in seen;
      NumberGrows(d, i, |d|);
      NumberOnce(d, seen, i);
    }
  }

  /** Whole words first, then the remaining bits against a shifted mask. */
  method TestWords(fieldsSeen: array<nat>, count: nat, ghost r: set<nat>) returns (v: Verdict)
    requires HoldsBits(fieldsSeen[..], r)
    requires forall k :: k in r ==> k < count
    ensures v == if !FirstIn(count, r) then Missing else if Countable(count) then Complete else Undefined
  {
    if count == 0 {
      return Complete;
    }
    var i := 0;
    while i < count / 32
      invariant i <= count / 32 && i <= 2
      invariant FirstIn(32 * i, r)
    {
      if i >= fieldsSeen.Length {
        return Undefined;
      }
      WholeWord(fieldsSeen[..], i, r);
      if fieldsSeen[i] != ALL_BITS {
        return Missing;
      }
      i := i + 1;
    }
    if count / 32 >= fieldsSeen.Length || 32 - count % 32 >= 32 {
      return Undefined;
    }
    LastWord(fieldsSeen[..], count, r);
    v := if fieldsSeen[count / 32] == Bits.Shr(ALL_BITS, 32 - count % 32) then Complete else Missing;
  }

  lemma WholeWord(words: seq<nat>, w: nat, r: set<nat>)
    requires HoldsBits(words, r) && w < 2
    ensures words[w] == ALL_BITS <==> forall k :: 32 * w <= k < 32 * w + 32 ==> k in r
  {
    WordComplete(words[w], 32);
    assert Bits.Shr(ALL_BITS, 0) == ALL_BITS;
    WordBits(words, r, w, 32);
  }

  lemma LastWord(words: seq<nat>, count: nat, r: set<nat>)
    requires HoldsBits(words, r) && 0 < count && Countable(count)
    requires forall k :: k in r ==> k < count
    ensures words[count / 32] == Bits.Shr(ALL_BITS, 32 - count % 32)
      <==> forall k :: count / 32 * 32 <= k < count ==> k in r
  {
    var w, n := count / 32, count % 32;
    forall k | n <= k < 32
      ensures !Bits.Bit(words[w], k)
    {
      BitHeld(words, r, w, k);
    }
    WordComplete(words[w], n);
    WordBits(words, r, w, n);
  }

  lemma BitHeld(words: seq<nat>, r: set<nat>, w: nat, k: nat)
    requires HoldsBits(words, r) && w < 2 && k < 32
    ensures Bits.Bit(words[w], k) <==> 32 * w + k in r
  {
    var j := 32 * w + k;
    assert j / 32 == w && j % 32 == k;
  }

  lemma WordBits(words: seq<nat>, r: set<nat>, w: nat, n: nat)
    requires HoldsBits(words, r) && w < 2 && n <= 32
    ensures Bits.AllSet(words[w], n) <==> forall k :: 32 * w <= k < 32 * w + n ==> k in r
  {
    forall k | 0 <= k < n
      ensures Bits.Bit(words[w], k) <==> 32 * w + k in r
    {
      BitHeld(words, r, w, k);
    }
    if Bits.AllSet(words[w], n) {
      forall k | 32 * w <= k < 32 * w + n
        ensures k in r
      {
        assert Bits.Bit(words[w], k - 32 * w);
      }
    }
  }
}
