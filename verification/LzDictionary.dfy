/** The sliding window of the compressor in `src/miniz.c`: 32768 bytes addressed by position modulo their
    number, whose first 257 bytes are repeated behind the end so that a match can be read without wrapping. */
module LzDictionary {
  import opened Bits
  import opened LzTokens

  const TAIL := MAX_MATCH - 1
  const HASH_SIZE := 32768

  function At(p: nat): (i: nat)
    ensures i < DICT_SIZE
  {
    p % DICT_SIZE
  }

  ghost predicate ByteAt(dict: seq<Byte>, p: nat, b: Byte)
    requires |dict| == DICT_SIZE + TAIL
  {
    dict[At(p)] == b && (At(p) < TAIL ==> dict[DICT_SIZE + At(p)] == b)
  }

  /** The window holds the input from `lo` up to `hi`. */
  ghost predicate Window(dict: seq<Byte>, input: seq<Byte>, lo: nat, hi: nat)
    requires |dict| == DICT_SIZE + TAIL
  {
    lo <= hi <= |input| && forall p: nat :: lo <= p < hi ==> ByteAt(dict, p, input[p])
  }

  lemma AtDistinct(p: nat, q: nat)
    requires p < q < p + DICT_SIZE
    ensures At(p) != At(q)
  {
  }

  lemma AtPlus(p: nat, k: nat)
    requires k <= TAIL
    ensures At(p + k) == if At(p) + k < DICT_SIZE then At(p) + k else At(p) + k - DICT_SIZE
  {
  }

  /** Reading on from a position does not wrap. */
  lemma ReadAhead(dict: seq<Byte>, input: seq<Byte>, lo: nat, hi: nat, p: nat, k: nat)
    requires |dict| == DICT_SIZE + TAIL && Window(dict, input, lo, hi)
    requires lo <= p && p + k < hi && k <= TAIL
    ensures At(p) + k < |dict| && dict[At(p) + k] == input[p + k]
  {
    hide At;
    AtPlus(p, k);
    assert ByteAt(dict, p + k, input[p + k]);
  }

  /** The dictionary after `b` is put at position `p`. */
  ghost function Put(dict: seq<Byte>, p: nat, b: Byte): (r: seq<Byte>)
    requires |dict| == DICT_SIZE + TAIL
    ensures |r| == |dict|
  {
    var d := dict[At(p) := b];
    if At(p) < TAIL then d[DICT_SIZE + At(p) := b] else d
  }

  /** One more byte; it takes the place of the one 32768 positions before. */
  lemma PutGrows(dict: seq<Byte>, input: seq<Byte>, lo: nat, hi: nat, lo': nat)
    requires |dict| == DICT_SIZE + TAIL && hi < |input| && Window(dict, input, lo, hi)
    requires lo <= lo' <= hi && hi < lo' + DICT_SIZE
    ensures Window(Put(dict, hi, input[hi]), input, lo', hi + 1)
  {
    hide At;
    var d := Put(dict, hi, input[hi]);
    forall p: nat | lo' <= p < hi + 1 ensures ByteAt(d, p, input[p]) {
      if p < hi {
        assert ByteAt(dict, p, input[p]);
        AtDistinct(p, hi);
      }
    }
  }

  lemma WindowShrinks(dict: seq<Byte>, input: seq<Byte>, lo: nat, hi: nat, lo': nat)
    requires |dict| == DICT_SIZE + TAIL && Window(dict, input, lo, hi) && lo <= lo' <= hi
    ensures Window(dict, input, lo', hi)
  {
  }

  lemma WindowOfMore(dict: seq<Byte>, input: seq<Byte>, more: seq<Byte>, lo: nat, hi: nat)
    requires |dict| == DICT_SIZE + TAIL && Window(dict, input, lo, hi)
    ensures Window(dict, input + more, lo, hi)
  {
    forall p: nat | lo <= p < hi ensures ByteAt(dict, p, (input + more)[p]) {
      assert ByteAt(dict, p, input[p]);
    }
  }

  // ---------------------------------------------------------------- hash chains

  function Xor(a: nat, b: nat, bits: nat): (r: nat)
    ensures r < Pow2(bits)
  {
    if bits == 0 then 0 else (a + b) % 2 + 2 * Xor(a / 2, b / 2, bits - 1)
  }

  /** `((hash << 5) ^ c) & 32767`. */
  function HashStep(hash: nat, c: Byte): (r: nat)
    ensures r < HASH_SIZE
  {
    HashBits();
    Xor(32 * hash, c, 15)
  }

  lemma HashBits()
    ensures Pow2(15) == HASH_SIZE
  {
    Pow2Values();
  }

  /** Whatever 16-bit number a chain holds, the distance to it taken modulo 65536 leads to its place. */
  lemma ChainPosition(pos: nat, next: nat, dist: nat)
    requires next < 65536 && dist == (pos + 65536 - next) % 65536 && dist <= pos
    ensures At(pos - dist) == At(next)
  {
    var q := (pos + 65536 - next) / 65536;
    assert pos + 65536 - next == 65536 * q + dist;
    assert pos - dist == next + 32768 * (2 * q - 2);
    ModPlus(next, 2 * q - 2);
  }

  lemma ModPlus(x: nat, k: int)
    requires x + 32768 * k >= 0
    ensures (x + 32768 * k) % 32768 == x % 32768
  {
  }

  /** A match grows as long as the bytes agree. */
  lemma MatchGrows(input: seq<Byte>, at: nat, len: nat, dist: nat)
    requires IsMatch(input, at, len, dist) && at + len < |input| && input[at + len] == input[at + len - dist]
    ensures IsMatch(input, at, len + 1, dist)
  {
  }
}
