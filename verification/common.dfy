/** Shared vocabulary: bytes, fixed-width unsigned integers, big-endian 16-bit fields
    (network order, as produced by `ntohs`) and a small Option type. */
module Common {

  /** One octet of a byte stream. */
  newtype byte = x: int | 0 <= x < 256

  const U16: nat := 0x1_0000
  const U32: nat := 0x1_0000_0000
  const U64: nat := 0x1_0000_0000_0000_0000

  /** `uint16_t` */
  type u16 = x: int | 0 <= x < 0x1_0000
  /** `uint64_t` */
  type u64 = x: int | 0 <= x < 0x1_0000_0000_0000_0000

  datatype Option<+T> = None | Some(value: T)

  /** The host value of two bytes read in network (big-endian) order. */
  function BE16(hi: byte, lo: byte): u16
  {
    hi as int * 256 + lo as int
  }

  /** The two network-order bytes of a 16-bit value (`htons` followed by a byte copy). */
  function ToBE16(v: u16): (bs: seq<byte>)
    ensures |bs| == 2
    ensures BE16(bs[0], bs[1]) == v
  {
    [(v / 256) as byte, (v % 256) as byte]
  }

  /** Reading two bytes and writing the value back gives the same two bytes. */
  lemma BE16RoundTrip(hi: byte, lo: byte)
    ensures ToBE16(BE16(hi, lo)) == [hi, lo]
  {
  }

  /** Distinct byte pairs never decode to the same value. */
  lemma BE16Injective(a: byte, b: byte, c: byte, d: byte)
    requires BE16(a, b) == BE16(c, d)
    ensures a == c && b == d
  {
    BE16RoundTrip(a, b);
    BE16RoundTrip(c, d);
  }

  /** The concatenation of a sequence of byte strings. */
  function Flatten(chunks: seq<seq<byte>>): (r: seq<byte>)
    ensures |chunks| == 0 ==> r == []
  {
    if |chunks| == 0 then [] else chunks[0] + Flatten(chunks[1..])
  }

  lemma FlattenCons(chunks: seq<seq<byte>>)
    requires |chunks| > 0
    ensures Flatten(chunks) == chunks[0] + Flatten(chunks[1..])
  {
  }

  lemma AppendAssoc<T>(a: seq<T>, b: seq<T>, c: seq<T>)
    ensures (a + b) + c == a + (b + c)
  {
  }

  lemma {:induction false} FlattenAppend(chunks: seq<seq<byte>>, c: seq<byte>)
    ensures Flatten(chunks + [c]) == Flatten(chunks) + c
  {
    if |chunks| == 0 {
      assert chunks + [c] == [c];
    } else {
      assert (chunks + [c])[1..] == chunks[1..] + [c];
      FlattenAppend(chunks[1..], c);
    }
  }

  /** `s` is what is left of `t` after bytes were removed from its front. */
  predicate IsSuffix<T(==)>(s: seq<T>, t: seq<T>)
  {
    |s| <= |t| && s == t[|t| - |s|..]
  }

  /** What is left of a buffer after a front cut is what is left of the whole buffer. */
  lemma SuffixOfDrop<T>(s: seq<T>, buf: seq<T>, k: nat)
    requires k <= |buf| && IsSuffix(s, buf[k..])
    ensures IsSuffix(s, buf)
  {
    assert buf[k..][|buf| - k - |s|..] == buf[|buf| - |s|..];
  }

  /** Appending to a buffer keeps what was already in it. */
  lemma PrefixOfExtend<T>(s: seq<T>, a: seq<T>, b: seq<T>)
    requires |s| >= |a + b| && s[..|a + b|] == a + b
    ensures |s| >= |a| && s[..|a|] == a
  {
    assert s[..|a|] == s[..|a + b|][..|a|];
  }
}
