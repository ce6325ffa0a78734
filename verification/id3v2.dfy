/**
  Locating the leading ID3v2 tag of an MPEG audio stream (`mp3dec_skip_id3v2`).

  The tag header is ten bytes: the signature "ID3", two version bytes, one flags byte
  and a four-byte size. The size is a synchsafe integer (section 6.2 of the ID3v2.4.0
  structure document): each byte carries its seven low bits, most significant byte first.
  The size counts the bytes after the header, so a tag occupies size + 10 bytes.
*/
module Id3v2 {
  import opened Common

  /** Length of the tag header (section 3.1 of the ID3v2.4.0 structure document). */
  const HeaderSize: nat := 10

  /** The bytes of "ID3". */
  const Magic: seq<byte> := [0x49, 0x44, 0x33]

  /** 2^28: one more than the largest value four synchsafe bytes can hold. */
  const SynchsafeLimit: nat := 0x1000_0000

  /** 128 to the power n: one more than the largest value n synchsafe bytes can hold. */
  function Pow128(n: nat): (r: nat)
    ensures r >= 1
  {
    if n == 0 then 1 else 128 * Pow128(n - 1)
  }

  /**
    Reference reading of a synchsafe field of any width: the seven low bits of every
    byte, most significant byte first. The top bit of each byte is ignored.
  */
  function SynchsafeValue(bs: seq<byte>): nat
  {
    if bs == [] then 0 else SynchsafeValue(bs[..|bs| - 1]) * 128 + bs[|bs| - 1] as int % 128
  }

  /** The k-byte synchsafe encoding of n (every byte below 0x80). */
  function SynchsafeEncode(n: nat, k: nat): (bs: seq<byte>)
    ensures |bs| == k
    ensures forall i | 0 <= i < k :: bs[i] < 128
  {
    if k == 0 then [] else SynchsafeEncode(n / 128, k - 1) + [n % 128]
  }

  /** True when the buffer is long enough and starts with the tag signature (line 70). */
  predicate HasTag(buf: seq<byte>)
  {
    |buf| > HeaderSize && buf[..3] == Magic
  }

  /**
    `mp3dec_skip_id3v2`: the number of bytes the leading tag occupies, or 0 when the
    buffer does not start with one. The four size bytes are masked to seven bits and
    shifted into place exactly as the source does; their bit ranges are disjoint, so the
    bitwise or of the source is the sum written here.
  */
  function SkipId3v2(buf: seq<byte>): (r: nat)
    ensures !HasTag(buf) ==> r == 0
    ensures HasTag(buf) ==> r == SynchsafeValue(buf[6..10]) + HeaderSize
    ensures HasTag(buf) ==> HeaderSize <= r <= SynchsafeLimit - 1 + HeaderSize
  {
    if |buf| > 10 && buf[0] == 0x49 && buf[1] == 0x44 && buf[2] == 0x33 then
      FourBytes(buf[6], buf[7], buf[8], buf[9]);
      assert buf[6..10] == [buf[6], buf[7], buf[8], buf[9]];
      ((buf[6] as int % 128) * 0x20_0000 + (buf[7] as int % 128) * 0x4000
        + (buf[8] as int % 128) * 0x80 + buf[9] as int % 128) + 10
    else
      0
  }

  /** The four-byte case of the reference reading, spelled out as shifts. */
  lemma FourBytes(a: byte, b: byte, c: byte, d: byte)
    ensures SynchsafeValue([a, b, c, d])
         == (a as int % 128) * 0x20_0000 + (b as int % 128) * 0x4000
            + (c as int % 128) * 0x80 + d as int % 128
  {
    assert [a, b, c, d][..3] == [a, b, c];
    assert [a, b, c][..2] == [a, b];
    assert [a, b][..1] == [a];
    assert [a][..0] == [];
    assert SynchsafeValue([a]) == a as int % 128;
    assert SynchsafeValue([a, b]) == (a as int % 128) * 128 + b as int % 128;
    assert SynchsafeValue([a, b, c]) == SynchsafeValue([a, b]) * 128 + c as int % 128;
  }

  /** A field of n bytes never reaches 128^n. */
  lemma {:induction false} SynchsafeValueBound(bs: seq<byte>)
    ensures SynchsafeValue(bs) < Pow128(|bs|)
  {
    if bs != [] {
      SynchsafeValueBound(bs[..|bs| - 1]);
    }
  }

  /** Splitting off the low seven bits: v * 128 + x for a digit x has quotient v and remainder x. */
  lemma Digit(v: nat, x: nat)
    requires x < 128
    ensures (v * 128 + x) / 128 == v && (v * 128 + x) % 128 == x
  {
  }

  /** Reading back an encoding gives the encoded value. */
  lemma {:induction false} DecodeEncode(n: nat, k: nat)
    requires n < Pow128(k)
    ensures SynchsafeValue(SynchsafeEncode(n, k)) == n
  {
    if k > 0 {
      var q, r := n / 128, n % 128;
      assert n == q * 128 + r;
      assert q < Pow128(k - 1);
      var init := SynchsafeEncode(q, k - 1);
      assert SynchsafeEncode(n, k) == init + [r];
      SynchsafeSnoc(init, r);
      DecodeEncode(q, k - 1);
      calc {
        SynchsafeValue(SynchsafeEncode(n, k));
        SynchsafeValue(init + [r]);
        SynchsafeValue(init) * 128 + r % 128;
        { assert SynchsafeValue(init) == q; }
        q * 128 + r % 128;
        { Digit(0, r); }
        q * 128 + r;
      }
    }
  }

  /** Appending a byte shifts the value read so far up by seven bits and adds the byte's low seven. */
  lemma SynchsafeSnoc(init: seq<byte>, x: byte)
    ensures SynchsafeValue(init + [x]) == SynchsafeValue(init) * 128 + x as int % 128
  {
    assert (init + [x])[..|init|] == init;
  }

  /** A field whose top bits are all clear is the encoding of its own value. */
  lemma {:induction false} EncodeDecode(bs: seq<byte>)
    requires forall i | 0 <= i < |bs| :: bs[i] < 128
    ensures SynchsafeEncode(SynchsafeValue(bs), |bs|) == bs
  {
    if bs != [] {
      var init := bs[..|bs| - 1];
      var v := SynchsafeValue(init);
      var x := bs[|bs| - 1];
      assert SynchsafeValue(bs) == v * 128 + x;
      Digit(v, x);
      EncodeDecode(init);
      assert bs == init + [x];
    }
  }

  /**
    A buffer that starts with a tag header announcing `size` bytes and holds at least one
    byte after the header makes the skipper return exactly size + 10.
  */
  lemma SkipEncodedTag(versionAndFlags: seq<byte>, size: nat, rest: seq<byte>)
    requires |versionAndFlags| == 3 && size < SynchsafeLimit && |rest| >= 1
    ensures SkipId3v2(Magic + versionAndFlags + SynchsafeEncode(size, 4) + rest) == size + HeaderSize
  {
    var buf := Magic + versionAndFlags + SynchsafeEncode(size, 4) + rest;
    assert buf[..3] == Magic;
    assert buf[6..10] == SynchsafeEncode(size, 4);
    assert Pow128(4) == SynchsafeLimit;
    DecodeEncode(size, 4);
  }

  /** The skip length depends on the ten header bytes only, and never on the top bits of the size bytes. */
  lemma SkipIgnoresTopBits(buf: seq<byte>, other: seq<byte>)
    requires HasTag(buf) && |other| > HeaderSize && other[..6] == buf[..6]
    requires forall i | 6 <= i < 10 :: other[i] % 128 == buf[i] % 128
    ensures SkipId3v2(other) == SkipId3v2(buf)
  {
    assert other[..3] == buf[..6][..3];
    FourBytes(buf[6], buf[7], buf[8], buf[9]);
    FourBytes(other[6], other[7], other[8], other[9]);
    assert buf[6..10] == [buf[6], buf[7], buf[8], buf[9]];
    assert other[6..10] == [other[6], other[7], other[8], other[9]];
  }
}
