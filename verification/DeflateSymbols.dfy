/** Match lengths and distances as symbols with extra bits (section 3.2.5 of RFC 1951): the look-up tables of
    the compressor in `src/miniz.c`, and those of its inflater. */
module DeflateSymbols {
  import opened Bits

  // ---------------------------------------------------------------- the compressor's tables

  /** `s_tdefl_len_sym`, for a length minus 3: each line is a stretch of the table. */
  function LenSym(x: nat): (s: nat)
    requires x < 256
    ensures 257 <= s <= 285
  {
    if x < 8 then 257 + x
    else if x < 16 then 265 + (x - 8) / 2
    else if x < 32 then 269 + (x - 16) / 4
    else if x < 64 then 273 + (x - 32) / 8
    else if x < 128 then 277 + (x - 64) / 16
    else if x < 255 then 281 + (x - 128) / 32
    else 285
  }

  /** `s_tdefl_len_extra`. */
  function LenExtra(x: nat): (n: nat)
    requires x < 256
    ensures n <= 5
  {
    if x < 8 then 0 else if x < 16 then 1 else if x < 32 then 2 else if x < 64 then 3 else if x < 128 then 4
    else if x < 255 then 5 else 0
  }

  /** `s_tdefl_small_dist_sym`, for a distance minus 1 below 512. */
  function SmallDistSym(d: nat): (s: nat)
    requires d < 512
    ensures s <= 17
  {
    if d < 4 then d
    else if d < 8 then 4 + (d - 4) / 2
    else if d < 16 then 6 + (d - 8) / 4
    else if d < 32 then 8 + (d - 16) / 8
    else if d < 64 then 10 + (d - 32) / 16
    else if d < 128 then 12 + (d - 64) / 32
    else if d < 256 then 14 + (d - 128) / 64
    else 16 + (d - 256) / 128
  }

  function SmallDistExtra(d: nat): (n: nat)
    requires d < 512
    ensures n <= 7
  {
    if d < 4 then 0 else if d < 8 then 1 else if d < 16 then 2 else if d < 32 then 3 else if d < 64 then 4
    else if d < 128 then 5 else if d < 256 then 6 else 7
  }

  /** `s_tdefl_large_dist_sym`, for the high byte of a distance minus 1. */
  function LargeDistSym(h: nat): (s: nat)
    requires h < 128
    ensures s <= 29
  {
    if h < 2 then 0
    else if h < 4 then 18 + (h - 2)
    else if h < 8 then 20 + (h - 4) / 2
    else if h < 16 then 22 + (h - 8) / 4
    else if h < 32 then 24 + (h - 16) / 8
    else if h < 64 then 26 + (h - 32) / 16
    else 28 + (h - 64) / 32
  }

  function LargeDistExtra(h: nat): (n: nat)
    requires h < 128
    ensures n <= 13
  {
    if h < 2 then 0 else if h < 4 then 8 else if h < 8 then 9 else if h < 16 then 10 else if h < 32 then 11
    else if h < 64 then 12 else 13
  }

  /** The symbol of a distance minus 1, and its number of extra bits (lines 2127 to 2134). */
  function DistSym(d: nat): (s: nat)
    requires d < 32768
    ensures s <= 29
  {
    if d < 512 then SmallDistSym(d) else LargeDistSym(d / 256)
  }

  function DistExtra(d: nat): (n: nat)
    requires d < 32768
    ensures n <= 13
  {
    if d < 512 then SmallDistExtra(d) else LargeDistExtra(d / 256)
  }

  // ---------------------------------------------------------------- the inflater's tables

  const LENGTH_BASE := [3, 4, 5, 6, 7, 8, 9, 10, 11, 13, 15, 17, 19, 23, 27, 31, 35, 43, 51, 59, 67, 83, 99, 115, 131, 163,
                        195, 227, 258, 0, 0]
  const LENGTH_EXTRA := [0, 0, 0, 0, 0, 0, 0, 0, 1, 1, 1, 1, 2, 2, 2, 2, 3, 3, 3, 3, 4, 4, 4, 4, 5, 5, 5, 5, 0, 0, 0]
  const DIST_BASE := [1, 2, 3, 4, 5, 7, 9, 13, 17, 25, 33, 49, 65, 97, 129, 193, 257, 385, 513, 769, 1025, 1537, 2049, 3073,
                      4097, 6145, 8193, 12289, 16385, 24577, 0, 0]
  const DIST_EXTRA := [0, 0, 0, 0, 1, 1, 2, 2, 3, 3, 4, 4, 5, 5, 6, 6, 7, 7, 8, 8, 9, 9, 10, 10, 11, 11, 12, 12, 13, 13, 0, 0]

  /** The inflater's look-ups. */
  function LengthBase(s: nat): nat
    requires 257 <= s <= 287
  {
    LENGTH_BASE[s - 257]
  }

  function LengthBits(s: nat): (n: nat)
    requires 257 <= s <= 287
    ensures n <= 5
  {
    LENGTH_EXTRA[s - 257]
  }

  function DistBase(s: nat): nat
    requires s <= 29
  {
    DIST_BASE[s]
  }

  function DistBits(s: nat): (n: nat)
    requires s <= 29
    ensures n <= 13
  {
    DIST_EXTRA[s]
  }

  lemma Powers()
    ensures Pow2(0) == 1 && Pow2(1) == 2 && Pow2(2) == 4 && Pow2(3) == 8 && Pow2(4) == 16 && Pow2(5) == 32 && Pow2(6) == 64
    ensures Pow2(7) == 128 && Pow2(8) == 256 && Pow2(9) == 512 && Pow2(10) == 1024 && Pow2(11) == 2048 && Pow2(12) == 4096
    ensures Pow2(13) == 8192
  {
    Pow2Add(8, 1);
    Pow2Add(8, 2);
    Pow2Add(8, 3);
    Pow2Add(8, 4);
    Pow2Add(8, 5);
  }

  /** The tables of section 3.2.5 of RFC 1951: eight lengths have symbols of their own, then four symbols share each number of
      extra bits; the last length has its own symbol again. */
  lemma LengthBitsTable(s: nat)
    requires 257 <= s <= 285
    ensures LengthBits(s) == if s <= 264 || s == 285 then 0 else (s - 261) / 4
  {
  }

  /** What the symbols stand for follows on without a gap. */
  lemma LengthTable(s: nat)
    requires 257 <= s <= 283
    ensures LengthBase(257) == 3 && LengthBase(s + 1) == LengthBase(s) + Pow2(LengthBits(s)) && LengthBase(285) == 258
  {
    hide Pow2;
    if s <= 264 { ShortLengths(s); } else if s <= 276 { MiddleLengths(s); } else { LongLengths(s); }
  }

  lemma ShortLengths(s: nat)
    requires 257 <= s <= 264
    ensures LengthBase(s + 1) == LengthBase(s) + Pow2(LengthBits(s))
  {
    hide Pow2;
    Powers();
  }

  lemma MiddleLengths(s: nat)
    requires 265 <= s <= 276
    ensures LengthBase(s + 1) == LengthBase(s) + Pow2(LengthBits(s))
  {
    hide Pow2;
    Powers();
  }

  lemma LongLengths(s: nat)
    requires 277 <= s <= 283
    ensures LengthBase(s + 1) == LengthBase(s) + Pow2(LengthBits(s))
  {
    hide Pow2;
    Powers();
  }

  /** Four distances have symbols of their own, then two symbols share each number of extra bits. */
  lemma DistanceBitsTable(s: nat)
    requires s <= 29
    ensures DistBits(s) == if s < 4 then 0 else s / 2 - 1
  {
  }

  lemma DistanceTable(s: nat)
    requires s < 29
    ensures DistBase(0) == 1 && DistBase(s + 1) == DistBase(s) + Pow2(DistBits(s))
  {
    hide Pow2;
    if s < 10 { ShortDistances(s); } else if s < 20 { MiddleDistances(s); } else { LongDistances(s); }
  }

  lemma ShortDistances(s: nat)
    requires s < 10
    ensures DistBase(s + 1) == DistBase(s) + Pow2(DistBits(s))
  {
    hide Pow2;
    Powers();
  }

  lemma MiddleDistances(s: nat)
    requires 10 <= s < 20
    ensures DistBase(s + 1) == DistBase(s) + Pow2(DistBits(s))
  {
    hide Pow2;
    Powers();
  }

  lemma LongDistances(s: nat)
    requires 20 <= s < 29
    ensures DistBase(s + 1) == DistBase(s) + Pow2(DistBits(s))
  {
    hide Pow2;
    Powers();
  }

  ghost predicate LengthFits(x: nat)
    requires x < 256
  {
    var s := LenSym(x) - 257;
    LENGTH_EXTRA[s] == LenExtra(x) && LENGTH_BASE[s] + x % Pow2(LenExtra(x)) == x + 3
  }

  ghost predicate DistanceFits(d: nat)
    requires d < 32768
  {
    var s := DistSym(d);
    DIST_EXTRA[s] == DistExtra(d) && DIST_BASE[s] + d % Pow2(DistExtra(d)) == d + 1
  }

  lemma ShortLength(x: nat)
    requires x < 8
    ensures LengthFits(x)
  {
    hide Pow2;
    Powers();
  }

  lemma SecondLength(x: nat)
    requires 8 <= x < 32
    ensures LengthFits(x)
  {
    hide Pow2;
    Powers();
  }

  lemma MiddleLength(x: nat)
    requires 32 <= x < 128
    ensures LengthFits(x)
  {
    hide Pow2;
    Powers();
  }

  lemma LongLength(x: nat)
    requires 128 <= x < 256
    ensures LengthFits(x)
  {
    hide Pow2;
    Powers();
  }

  /** The low bits of a length minus 3, added to the base of its symbol, give the length back; and the two
      sides agree on how many bits those are. */
  lemma LengthIsRead(len: nat)
    requires 3 <= len <= 258
    ensures var x := len - 3;
            var s := LenSym(x) - 257;
            && LENGTH_EXTRA[s] == LenExtra(x) && LENGTH_BASE[s] + x % Pow2(LenExtra(x)) == len
  {
    hide LenSym, LenExtra, Pow2;
    var x := len - 3;
    if x < 8 { ShortLength(x); } else if x < 32 { SecondLength(x); } else if x < 128 { MiddleLength(x); } else { LongLength(x); }
  }

  lemma NearestDistance(d: nat)
    requires d < 8
    ensures DistanceFits(d)
  {
    hide Pow2, LargeDistSym, LargeDistExtra;
    Powers();
    assert d < 4 ==> DistExtra(d) == 0 && DistSym(d) == d && d % 1 == 0;
  }

  lemma NearDistance(d: nat)
    requires 8 <= d < 32
    ensures DistanceFits(d)
  {
    hide Pow2, LargeDistSym, LargeDistExtra;
    Powers();
  }

  lemma MiddleDistance(d: nat)
    requires 32 <= d < 512
    ensures DistanceFits(d)
  {
    hide Pow2, LargeDistSym, LargeDistExtra;
    Powers();
  }

  lemma FarDistance(d: nat)
    requires 512 <= d < 8192
    ensures DistanceFits(d)
  {
    hide Pow2, SmallDistSym, SmallDistExtra;
    Powers();
  }

  lemma FarthestDistance(d: nat)
    requires 8192 <= d < 32768
    ensures DistanceFits(d)
  {
    hide Pow2, SmallDistSym, SmallDistExtra;
    Powers();
  }

  /** The same for distances. */
  lemma DistanceIsRead(dist: nat)
    requires 1 <= dist <= 32768
    ensures var d := dist - 1;
            && DIST_EXTRA[DistSym(d)] == DistExtra(d) && DIST_BASE[DistSym(d)] + d % Pow2(DistExtra(d)) == dist
  {
    hide DistSym, DistExtra, Pow2;
    var d := dist - 1;
    if d < 8 { NearestDistance(d); } else if d < 32 { NearDistance(d); } else if d < 512 { MiddleDistance(d); }
    else if d < 8192 { FarDistance(d); } else { FarthestDistance(d); }
  }

  // ---------------------------------------------------------------- from the symbol back

  /** Every length symbol stands for lengths from 3 to 258.  Its extra bits are those with which the compressor writes
      the length, except that 258, which has symbol 285, could also be taken from the last number of symbol 284. */
  lemma LengthIsWritten(s: nat, e: nat)
    requires 257 <= s <= 285 && e < Pow2(LENGTH_EXTRA[s - 257])
    ensures var len := LENGTH_BASE[s - 257] + e;
            && 3 <= len <= 258
            && (!(s == 284 && e == 31) ==>
                  LenSym(len - 3) == s && LenExtra(len - 3) == LENGTH_EXTRA[s - 257] && (len - 3) % Pow2(LenExtra(len - 3)) == e)
  {
    Powers();
    if s < 265 { ShortSymbol(s); } else if s < 271 { MiddleSymbol(s, e); } else if s < 277 { UpperSymbol(s, e); }
    else if s < 281 { LaterSymbol(s, e); } else { LongSymbol(s, e); }
  }

  lemma ShortSymbol(s: nat)
    requires 257 <= s < 265
    ensures LENGTH_EXTRA[s - 257] == 0 && LENGTH_BASE[s - 257] == s - 254
  {
  }

  ghost predicate LengthBack(s: nat, e: nat)
    requires 257 <= s <= 285
  {
    var x := LENGTH_BASE[s - 257] + e - 3;
    0 <= x < 256 && LenSym(x) == s && LenExtra(x) == LENGTH_EXTRA[s - 257] && x % Pow2(LenExtra(x)) == e
  }

  lemma MiddleSymbol(s: nat, e: nat)
    requires 265 <= s < 271 && e < Pow2(LENGTH_EXTRA[s - 257])
    ensures LengthBack(s, e)
  {
    hide Pow2;
    Powers();
  }

  lemma UpperSymbol(s: nat, e: nat)
    requires 271 <= s < 277 && e < Pow2(LENGTH_EXTRA[s - 257])
    ensures LengthBack(s, e)
  {
    hide Pow2;
    Powers();
  }

  lemma LaterSymbol(s: nat, e: nat)
    requires 277 <= s < 281 && e < Pow2(LENGTH_EXTRA[s - 257])
    ensures LengthBack(s, e)
  {
    hide Pow2;
    Powers();
  }

  lemma LongSymbol(s: nat, e: nat)
    requires 281 <= s <= 285 && e < Pow2(LENGTH_EXTRA[s - 257])
    ensures LENGTH_BASE[s - 257] + e <= 258 && (!(s == 284 && e == 31) ==> LengthBack(s, e))
  {
    hide Pow2;
    Powers();
  }

  ghost predicate DistanceBack(s: nat, e: nat)
    requires s <= 29
  {
    var d := DIST_BASE[s] + e - 1;
    0 <= d < 32768 && DistSym(d) == s && DistExtra(d) == DIST_EXTRA[s] && d % Pow2(DistExtra(d)) == e
  }

  lemma NearestSymbol(s: nat, e: nat)
    requires s < 4 && e < Pow2(DIST_EXTRA[s])
    ensures DistanceBack(s, e)
  {
    hide Pow2, LargeDistSym, LargeDistExtra;
    Powers();
  }

  lemma NearSymbol(s: nat, e: nat)
    requires 4 <= s < 7 && e < Pow2(DIST_EXTRA[s])
    ensures DistanceBack(s, e)
  {
    hide Pow2, LargeDistSym, LargeDistExtra;
    Powers();
  }

  lemma NextSymbols(s: nat, e: nat)
    requires 7 <= s < 10 && e < Pow2(DIST_EXTRA[s])
    ensures DistanceBack(s, e)
  {
    hide Pow2, LargeDistSym, LargeDistExtra;
    Powers();
  }

  lemma MiddleDistSymbol(s: nat, e: nat)
    requires 10 <= s < 14 && e < Pow2(DIST_EXTRA[s])
    ensures DistanceBack(s, e)
  {
    hide Pow2, LargeDistSym, LargeDistExtra;
    Powers();
  }

  lemma UpperDistSymbol(s: nat, e: nat)
    requires 14 <= s < 18 && e < Pow2(DIST_EXTRA[s])
    ensures DistanceBack(s, e)
  {
    hide Pow2, LargeDistSym, LargeDistExtra;
    Powers();
  }

  lemma FarSymbol(s: nat, e: nat)
    requires 18 <= s < 24 && e < Pow2(DIST_EXTRA[s])
    ensures DistanceBack(s, e)
  {
    hide Pow2, SmallDistSym, SmallDistExtra;
    Powers();
  }

  lemma FartherSymbol(s: nat, e: nat)
    requires 24 <= s < 27 && e < Pow2(DIST_EXTRA[s])
    ensures DistanceBack(s, e)
  {
    hide Pow2, SmallDistSym, SmallDistExtra;
    Powers();
  }

  lemma FarthestSymbol(s: nat, e: nat)
    requires 27 <= s <= 29 && e < Pow2(DIST_EXTRA[s])
    ensures DistanceBack(s, e)
  {
    hide Pow2, SmallDistSym, SmallDistExtra;
    Powers();
  }

  /** The same for distances, without an exception. */
  lemma DistanceIsWritten(s: nat, e: nat)
    requires s <= 29 && e < Pow2(DIST_EXTRA[s])
    ensures var dist := DIST_BASE[s] + e;
            && 1 <= dist <= 32768
            && DistSym(dist - 1) == s && DistExtra(dist - 1) == DIST_EXTRA[s] && (dist - 1) % Pow2(DistExtra(dist - 1)) == e
  {
    hide DistSym, DistExtra, Pow2;
    if s < 4 { NearestSymbol(s, e); } else if s < 7 { NearSymbol(s, e); } else if s < 10 { NextSymbols(s, e); }
    else if s < 14 { MiddleDistSymbol(s, e); } else if s < 18 { UpperDistSymbol(s, e); }
    else if s < 24 { FarSymbol(s, e); } else if s < 27 { FartherSymbol(s, e); } else { FarthestSymbol(s, e); }
  }

  /** Both sides agree on a length, on the way from the compressor to the inflater. */
  lemma LengthComesBack(x: nat)
    requires x < 256
    ensures LengthBits(LenSym(x)) == LenExtra(x) && LengthBase(LenSym(x)) + x % Pow2(LenExtra(x)) == x + 3
    ensures LenSym(x) == 284 ==> x % Pow2(LenExtra(x)) != 31
  {
    LengthIsRead(x + 3);
    hide Pow2;
    if LenSym(x) == 284 { LengthIsWritten(284, 30); Powers(); }
  }

  lemma DistanceComesBack(d: nat)
    requires d < 32768
    ensures DistBits(DistSym(d)) == DistExtra(d) && DistBase(DistSym(d)) + d % Pow2(DistExtra(d)) == d + 1
  {
    DistanceIsRead(d + 1);
  }

  /** The two symbols that stand for no length. */
  lemma NoLength(s: nat)
    requires 286 <= s <= 287
    ensures LengthBase(s) == 0 && LengthBits(s) == 0
  {
  }

  /** And back again. */
  lemma LengthGoesBack(s: nat, e: nat)
    requires 257 <= s <= 285 && e < Pow2(LengthBits(s))
    ensures var len := LengthBase(s) + e;
            && 3 <= len <= 258
            && (!(s == 284 && e == 31) ==>
                  LenSym(len - 3) == s && LenExtra(len - 3) == LengthBits(s) && (len - 3) % Pow2(LengthBits(s)) == e)
  {
    LengthIsWritten(s, e);
  }

  lemma DistanceGoesBack(s: nat, e: nat)
    requires s <= 29 && e < Pow2(DistBits(s))
    ensures var dist := DistBase(s) + e;
            && 1 <= dist <= 32768
            && DistSym(dist - 1) == s && DistExtra(dist - 1) == DistBits(s) && (dist - 1) % Pow2(DistBits(s)) == e
  {
    DistanceIsWritten(s, e);
  }
}
