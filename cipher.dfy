/** The frame cipher of the CO2 monitor: the device sends 8-byte input
    reports that are scrambled with a fixed key; Co2meter::Decrypt undoes the
    scrambling. Bytes are bv8, so every byte operation wraps modulo 256 as
    the C++ assignment to `unsigned char` does. */
module Cipher {

  /** One 8-byte report, before or after decryption (Co2meter::DataFormat). */
  type Frame = s: seq<bv8> | |s| == 8 witness [0, 0, 0, 0, 0, 0, 0, 0]

  /** The fixed key that is also sent to the device at open time. */
  const Key: Frame := [0xc4, 0xc6, 0xc0, 0x92, 0x40, 0x23, 0xdc, 0x96]

  /** The constant state, ASCII "Htemp99e". */
  const CState: Frame := [0x48, 0x74, 0x65, 0x6D, 0x70, 0x39, 0x39, 0x65]

  /** The byte positions the XOR stage writes, in input order. */
  const Shuffle: seq<nat> := [2, 4, 0, 7, 1, 6, 5, 3]

  /** The shuffle table is a permutation of 0..7; it is in fact its own
      inverse, so every working byte is written exactly once. */
  lemma ShuffleIsPermutation()
    ensures |Shuffle| == 8
    ensures forall i :: 0 <= i < 8 ==> Shuffle[i] < 8 && Shuffle[Shuffle[i]] == i
    ensures forall i, j :: 0 <= i < j < 8 ==> Shuffle[i] != Shuffle[j]
  {
  }

  /** `(c >> 4) | (c << 4)`: the C++ expression is evaluated on int, but only
      its low eight bits reach the `unsigned char` result. */
  function SwapNibbles(c: bv8): (r: bv8)
    ensures r == c.RotateLeft(4)
    ensures r.RotateLeft(4) == c
  {
    (c >> 4) | (c << 4)
  }

  function Unscramble(data: Frame, j: nat): bv8
    requires j < 8
  {
    data[Shuffle[j]] ^ Key[j]
  }

  /** Stage 1 of the decryption, read by output position: because the
      shuffle table is an involution, position j receives input byte
      Shuffle[j]. */
  function XorStage(data: Frame): (w: Frame)
  {
    seq(8, j requires 0 <= j < 8 => Unscramble(data, j))
  }

  /** Stage 1 as the source writes it: `working[Shuffle[i]] = data[i] ^
      Key[Shuffle[i]]`. */
  lemma XorStagePlacement(data: Frame)
    ensures forall i :: 0 <= i < 8 ==> XorStage(data)[Shuffle[i]] == data[i] ^ Key[Shuffle[i]]
  {
    ShuffleIsPermutation();
  }

  /** The index of the byte before i, cyclically: `(i - 1 + 8) % 8` on size_t. */
  function Prev(i: nat): (p: nat)
    requires i < 8
    ensures p < 8 && (p + 1) % 8 == i
  {
    (i + 7) % 8
  }

  /** One byte of the right rotation: the high five bits of `cur` move down
      and the low three bits of the byte before it come in on top. */
  function Mix(cur: bv8, prev: bv8): bv8
  {
    (cur >> 3) | (prev << 5)
  }

  /** Stage 2, first half: `t[i] = (w[i] >> 3) | (w[i-1] << 5)`. */
  function RotateStage(w: Frame): (t: Frame)
  {
    seq(8, i requires 0 <= i < 8 => Mix(w[i], w[Prev(i)]))
  }

  /** ... which is the 64-bit word rotated right by three bits. */
  lemma RotateStageIsWordRotation(w: Frame)
    ensures WordOf(RotateStage(w)) == WordOf(w).RotateRight(3)
  {
    RotateIsWordRotation(w, RotateStage(w));
  }

  /** The frame read as one big-endian 64-bit word (byte 0 most significant). */
  function WordOf(s: Frame): bv64
  {
    (s[0] as bv64 << 56) | (s[1] as bv64 << 48) | (s[2] as bv64 << 40) | (s[3] as bv64 << 32) |
    (s[4] as bv64 << 24) | (s[5] as bv64 << 16) | (s[6] as bv64 << 8) | (s[7] as bv64)
  }

  lemma RotateIsWordRotation(w: Frame, t: Frame)
    requires forall i :: 0 <= i < 8 ==> t[i] == Mix(w[i], w[Prev(i)])
    ensures WordOf(t) == WordOf(w).RotateRight(3)
  {
  }

  /** Stage 2, second half: subtract the nibble-swapped constant byte. */
  function Unmask(b: bv8, i: nat): bv8
    requires i < 8
  {
    b - SwapNibbles(CState[i])
  }

  function UnmaskStage(t: Frame): (r: Frame)
  {
    seq(8, i requires 0 <= i < 8 => Unmask(t[i], i))
  }

  /** The whole decryption, as a value: the specification of Decrypt. */
  function Decrypted(data: Frame): (r: Frame)
  {
    UnmaskStage(RotateStage(XorStage(data)))
  }

  /** Byte i of the decryption, written as the source computes it. */
  lemma DecryptedByte(data: Frame, i: nat)
    requires i < 8
    ensures var w := XorStage(data);
      Decrypted(data)[i] == ((w[i] >> 3) | (w[Prev(i)] << 5)) - SwapNibbles(CState[i])
  {
  }

  /** The first loop of Co2meter::Decrypt, over the local buffer data_xor:
      input byte i, XORed with its key byte, lands at position Shuffle[i]. */
  method ShuffleXor(data: Frame) returns (w: Frame)
    ensures w == XorStage(data)
  {
    var dataXor := new bv8[8];
    ShuffleIsPermutation();
    for i := 0 to 8
      modifies dataXor
      invariant forall k :: 0 <= k < i ==> dataXor[Shuffle[k]] == data[k] ^ Key[Shuffle[k]]
    {
      var idx := Shuffle[i];
      dataXor[idx] := data[i] ^ Key[idx];
    }
    forall j | 0 <= j < 8 ensures dataXor[j] == XorStage(data)[j] {
      assert dataXor[Shuffle[Shuffle[j]]] == data[Shuffle[j]] ^ Key[Shuffle[Shuffle[j]]];
    }
    w := dataXor[..];
  }

  /** The second loop of Co2meter::Decrypt, filling the local buffer
      results from data_xor. */
  method RotateSubtract(dataXor: Frame) returns (results: Frame)
    ensures results == UnmaskStage(RotateStage(dataXor))
  {
    var res := new bv8[8];
    ghost var t := RotateStage(dataXor);
    for i := 0 to 8
      invariant forall k :: 0 <= k < i ==> res[k] == Unmask(t[k], k)
    {
      var ctmp := SwapNibbles(CState[i]);
      res[i] := ((dataXor[i] >> 3) | (dataXor[(i - 1 + 8) % 8] << 5)) - ctmp;
    }
    results := res[..];
  }

  /** Co2meter::Decrypt: the two loops in sequence. */
  method Decrypt(data: Frame) returns (results: Frame)
    ensures results == Decrypted(data)
  {
    var dataXor := ShuffleXor(data);
    results := RotateSubtract(dataXor);
  }

  function Mask(b: bv8, i: nat): bv8
    requires i < 8
  {
    b + SwapNibbles(CState[i])
  }

  /** Byte i of the 64-bit word rotated left by three bits. */
  function Unmix(cur: bv8, next: bv8): bv8
  {
    (cur << 3) | (next >> 5)
  }

  function Scramble(w: Frame, i: nat): bv8
    requires i < 8
  {
    w[Shuffle[i]] ^ Key[Shuffle[i]]
  }

  function MaskStage(d: Frame): (t: Frame)
  {
    seq(8, i requires 0 <= i < 8 => Mask(d[i], i))
  }

  /** The index of the byte after i, cyclically. */
  function Next(i: nat): (n: nat)
    requires i < 8
    ensures n < 8 && Prev(n) == i
  {
    (i + 1) % 8
  }

  function UnrotateStage(t: Frame): (w: Frame)
  {
    seq(8, i requires 0 <= i < 8 => Unmix(t[i], t[Next(i)]))
  }

  function ScrambleStage(w: Frame): (raw: Frame)
  {
    seq(8, i requires 0 <= i < 8 => Scramble(w, i))
  }

  /** The inverse of Decrypted: add the constant back, rotate the 64-bit word
      left by 3, and undo the shuffled XOR. */
  function Encrypted(d: Frame): (raw: Frame)
  {
    ScrambleStage(UnrotateStage(MaskStage(d)))
  }

  lemma MixUnmix(a: bv8, b: bv8, c: bv8)
    ensures Mix(Unmix(b, c), Unmix(a, b)) == b
  {
  }

  lemma UnmixMix(a: bv8, b: bv8, c: bv8)
    ensures Unmix(Mix(b, a), Mix(c, b)) == b
  {
  }

  lemma XorScramble(w: Frame)
    ensures XorStage(ScrambleStage(w)) == w
  {
    ShuffleIsPermutation();
    var x := XorStage(ScrambleStage(w));
    forall j | 0 <= j < 8 ensures x[j] == w[j] {
      assert x[j] == ScrambleStage(w)[Shuffle[j]] ^ Key[j];
    }
  }

  lemma ScrambleXor(data: Frame)
    ensures ScrambleStage(XorStage(data)) == data
  {
    ShuffleIsPermutation();
    var r := ScrambleStage(XorStage(data));
    forall i | 0 <= i < 8 ensures r[i] == data[i] {
      assert r[i] == XorStage(data)[Shuffle[i]] ^ Key[Shuffle[i]];
    }
  }

  lemma RotateUnrotate(t: Frame)
    ensures RotateStage(UnrotateStage(t)) == t
  {
    var w := UnrotateStage(t);
    var r := RotateStage(w);
    forall i | 0 <= i < 8 ensures r[i] == t[i] {
      var p := Prev(i);
      assert Next(p) == i;
      MixUnmix(t[p], t[i], t[Next(i)]);
    }
  }

  lemma UnrotateRotate(w: Frame)
    ensures UnrotateStage(RotateStage(w)) == w
  {
    var t := RotateStage(w);
    var r := UnrotateStage(t);
    forall i | 0 <= i < 8 ensures r[i] == w[i] {
      UnmixMix(w[Prev(i)], w[i], w[Next(i)]);
    }
  }

  lemma UnmaskMask(d: Frame)
    ensures UnmaskStage(MaskStage(d)) == d
  {
  }

  lemma MaskUnmask(t: Frame)
    ensures MaskStage(UnmaskStage(t)) == t
  {
  }

  /** Decryption undoes encryption: every decrypted frame is produced by
      the raw frame Encrypted gives. */
  lemma DecryptEncrypt(d: Frame)
    ensures Decrypted(Encrypted(d)) == d
  {
    XorScramble(UnrotateStage(MaskStage(d)));
    RotateUnrotate(MaskStage(d));
    UnmaskMask(d);
  }

  /** Encryption undoes decryption, so Decrypted is a bijection on frames. */
  lemma EncryptDecrypt(raw: Frame)
    ensures Encrypted(Decrypted(raw)) == raw
  {
    MaskUnmask(RotateStage(XorStage(raw)));
    UnrotateRotate(XorStage(raw));
    ScrambleXor(raw);
  }
}
