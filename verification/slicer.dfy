/** The little-endian field extractors of src/dbpf/slicer.rs, over an
    immutable byte sequence. A record is a run of 4-byte slots; `slot` is the
    zero-based slot index. When the requested bytes are not there, the
    source's out-of-range slice index panics (the later `try_into` of a slice
    of the right length cannot fail); here that is a precondition. */
module Slicer {
  import opened LittleEndian

  /** The 32-bit little-endian word in slot `slot` of `a`. */
  function Slicer32(a: seq<Byte>, slot: nat): (r: U32)
    requires 4 * slot + 4 <= |a|
    ensures r == (a[4 * slot] as int) + 0x100 * (a[4 * slot + 1] as int)
                 + 0x1_0000 * (a[4 * slot + 2] as int) + 0x100_0000 * (a[4 * slot + 3] as int)
  {
    LeValueFour(a[4 * slot .. 4 * slot + 4]);
    LeValue(a[4 * slot .. 4 * slot + 4])
  }

  /** The four bytes of slot `slot` of `a`, unconverted. */
  function SlicerRaw(a: seq<Byte>, slot: nat): (r: seq<Byte>)
    requires 4 * slot + 4 <= |a|
    ensures |r| == 4
    ensures forall j :: 0 <= j < 4 ==> r[j] == a[4 * slot + j]
  {
    a[4 * slot .. 4 * slot + 4]
  }

  /** The 16-bit little-endian half-word `sub` bytes into slot `slot` of `a`,
      widened to 32 bits. */
  function Slicer16(a: seq<Byte>, slot: nat, sub: nat): (r: U32)
    requires 4 * slot + sub + 2 <= |a|
    ensures r < 0x1_0000
    ensures r == (a[4 * slot + sub] as int) + 0x100 * (a[4 * slot + sub + 1] as int)
  {
    LeValueTwo(a[4 * slot + sub .. 4 * slot + sub + 2]);
    LeValue(a[4 * slot + sub .. 4 * slot + sub + 2])
  }

  /** The word in a slot is the word made of the slot's raw bytes. */
  lemma RawAndWordAgree(a: seq<Byte>, slot: nat)
    requires 4 * slot + 4 <= |a|
    ensures Slicer32(a, slot) == LeValue(SlicerRaw(a, slot))
  {
  }

  /** A word is its low half-word plus its high half-word shifted up 16 bits. */
  lemma WordIsTwoHalves(a: seq<Byte>, slot: nat)
    requires 4 * slot + 4 <= |a|
    ensures Slicer32(a, slot) == Slicer16(a, slot, 0) + 0x1_0000 * Slicer16(a, slot, 2)
  {
  }

  /** Reading slot `slot` gives `v` exactly when the slot holds the 4-byte
      little-endian encoding of `v`. */
  lemma Slicer32Encoded(a: seq<Byte>, slot: nat, v: U32)
    requires 4 * slot + 4 <= |a|
    ensures Slicer32(a, slot) == v <==> a[4 * slot .. 4 * slot + 4] == LeBytes(v, 4)
  {
    var s := a[4 * slot .. 4 * slot + 4];
    LeValueFour(s);
    LeValueOfLeBytes(v, 4);
    LeValueInjective(s, LeBytes(v, 4));
  }

  /** Appending bytes does not change the words already there. */
  lemma Slicer32OfPrefix(a: seq<Byte>, b: seq<Byte>, slot: nat)
    requires 4 * slot + 4 <= |a|
    ensures Slicer32(a + b, slot) == Slicer32(a, slot)
  {
    assert (a + b)[4 * slot .. 4 * slot + 4] == a[4 * slot .. 4 * slot + 4];
  }

  /** The bytes of a run of 32-bit words, each little-endian, in order. */
  function EncodeWords(words: seq<U32>): (r: seq<Byte>)
    ensures |r| == 4 * |words|
  {
    if |words| == 0 then [] else LeBytes(words[0], 4) + EncodeWords(words[1..])
  }

  /** The first `n` words of `a`. */
  function DecodeWords(a: seq<Byte>, n: nat): (r: seq<U32>)
    requires 4 * n <= |a|
    ensures |r| == n
  {
    seq(n, i requires 0 <= i < n => Slicer32(a, i))
  }

  /** Slot `i` of an encoded run of words holds the encoding of word `i`. */
  lemma {:induction false} EncodeWordsSlot(words: seq<U32>, i: nat)
    requires i < |words|
    ensures EncodeWords(words)[4 * i .. 4 * i + 4] == LeBytes(words[i], 4)
  {
    if i > 0 {
      EncodeWordsSlot(words[1..], i - 1);
      SliceOfAppend(LeBytes(words[0], 4), EncodeWords(words[1..]), 4 * (i - 1), 4 * (i - 1) + 4);
    }
  }

  /** Slot `i` of an encoded run of words reads back as word `i`. */
  lemma EncodedSlotReads(words: seq<U32>, i: nat)
    requires i < |words|
    ensures Slicer32(EncodeWords(words), i) == words[i]
  {
    EncodeWordsSlot(words, i);
    Slicer32Encoded(EncodeWords(words), i, words[i]);
  }

  /** Decoding an encoded run of words gives the words back. */
  lemma DecodeEncodeWords(words: seq<U32>)
    ensures DecodeWords(EncodeWords(words), |words|) == words
  {
    var e := EncodeWords(words);
    forall i | 0 <= i < |words|
      ensures Slicer32(e, i) == words[i]
    {
      EncodedSlotReads(words, i);
    }
  }

  /** Encoding the words decoded from a whole number of slots gives the bytes back. */
  lemma {:induction false} EncodeDecodeWords(a: seq<Byte>)
    requires |a| % 4 == 0
    ensures EncodeWords(DecodeWords(a, |a| / 4)) == a
    decreases |a|
  {
    if |a| > 0 {
      var n := |a| / 4;
      var d := DecodeWords(a, n);
      var rest := a[4..];
      assert d[1..] == DecodeWords(rest, n - 1) by {
        forall i | 0 <= i < n - 1
          ensures d[1..][i] == Slicer32(rest, i)
        {
          assert rest[4 * i .. 4 * i + 4] == a[4 * (i + 1) .. 4 * (i + 1) + 4];
        }
      }
      EncodeDecodeWords(rest);
      LeBytesOfLeValue(a[..4]);
      assert a == a[..4] + rest;
    }
  }
}
