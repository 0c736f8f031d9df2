/** The run-length form in which `tdefl_start_dynamic_block` of `src/miniz.c` sends code lengths, and the
    loop of `tinfl_decompress` that expands it (section 3.2.7 of RFC 1951). */
module CodeLengthPacking {
  import opened Sequences

  const MAX_LENGTHS := 320

  datatype Unpacked = Lengths(lengths: seq<nat>) | Failed | NeedsInput

  // ---------------------------------------------------------------- what a packed vector stands for

  /** What the number after symbol 16, 17 or 18 is short of the number of repetitions. */
  function Base(symbol: nat): nat { if symbol == 18 then 11 else 3 }

  /** One past the largest number the extra bits hold: 2, 3 or 7 bits. */
  function ExtraLimit(symbol: nat): nat { if symbol == 16 then 4 else if symbol == 17 then 8 else 128 }

  /** The lengths that symbols and their extra numbers stand for after `out`; 16 repeats the last one. */
  function Expand(packed: seq<nat>, out: seq<nat>): Unpacked {
    if packed == [] then Lengths(out)
    else if packed[0] < 16 then Expand(packed[1..], out + [packed[0]])
    else if packed[0] == 16 && out == [] then Failed
    else if |packed| == 1 then NeedsInput
    else
      var x := if packed[0] == 16 then out[|out| - 1] else 0;
      Expand(packed[2..], out + Repeated(x, packed[1] + Base(packed[0])))
  }

  /** Symbols up to 18, each repetition count within its extra bits. */
  predicate Encodable(packed: seq<nat>) {
    packed == []
    || (packed[0] < 16 && Encodable(packed[1..]))
    || (16 <= packed[0] <= 18 && |packed| >= 2 && packed[1] < ExtraLimit(packed[0]) && Encodable(packed[2..]))
  }

  /** How often a symbol occurs, not counting the extra numbers. */
  function Occurrences(packed: seq<nat>, symbol: nat): nat {
    if packed == [] then 0
    else
      var rest := if packed[0] < 16 || |packed| == 1 then packed[1..] else packed[2..];
      Occurrences(rest, symbol) + if packed[0] == symbol then 1 else 0
  }

  lemma {:induction false} AppendPacked(p: seq<nat>, q: seq<nat>, out: seq<nat>, mid: seq<nat>)
    requires Encodable(p) && Expand(p, out) == Lengths(mid)
    ensures Expand(p + q, out) == Expand(q, mid)
    ensures Encodable(q) ==> Encodable(p + q)
    ensures forall symbol :: Occurrences(p + q, symbol) == Occurrences(p, symbol) + Occurrences(q, symbol)
  {
    if p == [] {
      assert p + q == q;
    } else if p[0] < 16 {
      assert (p + q)[1..] == p[1..] + q;
      AppendPacked(p[1..], q, out + [p[0]], mid);
    } else {
      assert (p + q)[2..] == p[2..] + q;
      var x := if p[0] == 16 then out[|out| - 1] else 0;
      AppendPacked(p[2..], q, out + Repeated(x, p[1] + Base(p[0])), mid);
    }
  }

  lemma {:induction false} ExpandLiterals(x: nat, n: nat, out: seq<nat>)
    requires x < 16
    ensures Encodable(Repeated(x, n)) && Expand(Repeated(x, n), out) == Lengths(out + Repeated(x, n))
    ensures forall symbol :: Occurrences(Repeated(x, n), symbol) == if symbol == x then n else 0
  {
    var r := Repeated(x, n);
    if n == 0 {
      assert out + r == out;
    } else {
      assert r[1..] == Repeated(x, n - 1);
      ExpandLiterals(x, n - 1, out + [x]);
      assert out + [x] + Repeated(x, n - 1) == out + r;
    }
  }

  lemma ExpandRun(symbol: nat, extra: nat, out: seq<nat>)
    requires 16 <= symbol <= 18 && extra < ExtraLimit(symbol) && (symbol == 16 ==> out != [])
    ensures var x := if symbol == 16 then out[|out| - 1] else 0;
            Expand([symbol, extra], out) == Lengths(out + Repeated(x, extra + Base(symbol)))
    ensures Encodable([symbol, extra])
    ensures forall s :: Occurrences([symbol, extra], s) == if s == symbol then 1 else 0
  {
    assert [symbol, extra][2..] == [];
  }

  // ---------------------------------------------------------------- packing

  /** `packed` stands for the first `n` lengths; the symbols' counts are kept for their own code. */
  ghost predicate Packs(packed: seq<nat>, counts: seq<nat>, lengths: seq<nat>, n: nat)
    requires n <= |lengths|
  {
    && Encodable(packed) && Expand(packed, []) == Lengths(lengths[..n]) && |packed| <= n
    && |counts| == 19 && forall s :: 0 <= s < 19 ==> counts[s] == Occurrences(packed, s) <= n
  }

  lemma PacksMore(packed: seq<nat>, counts: seq<nat>, lengths: seq<nat>, n: nat, q: seq<nat>, symbol: nat, times: nat, m: nat)
    requires n + m <= |lengths| && Packs(packed, counts, lengths, n) && Encodable(q) && |q| <= m && symbol < 19 && times <= m
    requires Expand(q, lengths[..n]) == Lengths(lengths[..n + m])
    requires forall s :: Occurrences(q, s) == if s == symbol then times else 0
    ensures Packs(packed + q, counts[symbol := counts[symbol] + times], lengths, n + m)
  {
    hide Encodable, Occurrences;
    AppendPacked(packed, q, [], lengths[..n]);
  }

  /** `TDEFL_RLE_PREV_CODE_SIZE`: sends the pending repetitions of the previous length. */
  method FlushRepeats(packed: seq<nat>, counts: seq<nat>, ghost lengths: seq<nat>, ghost i: nat, prev: nat, repeats: nat)
      returns (packed': seq<nat>, counts': seq<nat>)
    requires i <= |lengths| <= MAX_LENGTHS && repeats <= 6
    requires repeats > 0 ==> i > repeats && prev < 16 && Packs(packed, counts, lengths, i - repeats)
    requires forall k :: i - repeats - 1 <= k < i && repeats > 0 ==> lengths[k] == prev
    ensures if repeats == 0 then packed' == packed && counts' == counts else Packs(packed', counts', lengths, i)
  {
    packed', counts' := packed, counts;
    if repeats > 0 {
      var n := i - repeats;
      assert lengths[..n] + Repeated(prev, repeats) == lengths[..i];
      if repeats < 3 {
        ExpandLiterals(prev, repeats, lengths[..n]);
        PacksMore(packed, counts, lengths, n, Repeated(prev, repeats), prev, repeats, repeats);
        counts' := counts[prev := (counts[prev] + repeats) % 65536];
        packed' := packed + Repeated(prev, repeats);
      } else {
        ExpandRun(16, repeats - 3, lengths[..n]);
        PacksMore(packed, counts, lengths, n, [16, repeats - 3], 16, 1, repeats);
        counts' := counts[16 := (counts[16] + 1) % 65536];
        packed' := packed + [16, repeats - 3];
      }
    }
  }

  /** One or two zeros on their own. */
  lemma PacksZeros(packed: seq<nat>, counts: seq<nat>, lengths: seq<nat>, n: nat, zeros: nat)
    requires n + zeros <= |lengths| && zeros < 3 && Packs(packed, counts, lengths, n)
    requires lengths[..n] + Repeated(0, zeros) == lengths[..n + zeros]
    ensures |counts| == 19 && counts[0] <= n && Packs(packed + Repeated(0, zeros), counts[0 := counts[0] + zeros], lengths, n + zeros)
  {
    hide Encodable, Expand, Occurrences, Repeated;
    ExpandLiterals(0, zeros, lengths[..n]);
    PacksMore(packed, counts, lengths, n, Repeated(0, zeros), 0, zeros, zeros);
  }

  /** Three to 138 zeros as a run. */
  lemma PacksZeroRun(packed: seq<nat>, counts: seq<nat>, lengths: seq<nat>, n: nat, zeros: nat, symbol: nat)
    requires n + zeros <= |lengths| && 3 <= zeros <= 138 && symbol == (if zeros <= 10 then 17 else 18) && Packs(packed, counts, lengths, n)
    requires lengths[..n] + Repeated(0, zeros) == lengths[..n + zeros]
    ensures |counts| == 19 && counts[symbol] <= n
    ensures Packs(packed + [symbol, zeros - Base(symbol)], counts[symbol := counts[symbol] + 1], lengths, n + zeros)
  {
    hide Encodable, Expand, Occurrences, Repeated;
    ExpandRun(symbol, zeros - Base(symbol), lengths[..n]);
    PacksMore(packed, counts, lengths, n, [symbol, zeros - Base(symbol)], symbol, 1, zeros);
  }

  /** `TDEFL_RLE_ZERO_CODE_SIZE`: sends the pending zeros. */
  method FlushZeros(packed: seq<nat>, counts: seq<nat>, ghost lengths: seq<nat>, ghost i: nat, zeros: nat)
      returns (packed': seq<nat>, counts': seq<nat>)
    requires i <= |lengths| <= MAX_LENGTHS && zeros <= 138 && zeros <= i
    requires zeros > 0 ==> Packs(packed, counts, lengths, i - zeros)
    requires forall k :: i - zeros <= k < i ==> lengths[k] == 0
    ensures if zeros == 0 then packed' == packed && counts' == counts else Packs(packed', counts', lengths, i)
  {
    hide Packs;
    packed', counts' := packed, counts;
    if zeros > 0 {
      ghost var n := i - zeros;
      assert lengths[..n] + Repeated(0, zeros) == lengths[..i];
      if zeros < 3 {
        PacksZeros(packed, counts, lengths, n, zeros);
        counts' := counts[0 := (counts[0] + zeros) % 65536];
        packed' := packed + Repeated(0, zeros);
      } else {
        var symbol := if zeros <= 10 then 17 else 18;
        PacksZeroRun(packed, counts, lengths, n, zeros, symbol);
        counts' := counts[symbol := (counts[symbol] + 1) % 65536];
        packed' := packed + [symbol, zeros - Base(symbol)];
      }
    }
  }

  /** A length other than zero: itself, or one more repetition of the last one (lines 1965 to 1973). */
  method PackLength(packed: seq<nat>, counts: seq<nat>, lengths: seq<nat>, i: nat, prev: nat, repeats: nat)
      returns (packed': seq<nat>, counts': seq<nat>, repeats': nat)
    requires i < |lengths| <= MAX_LENGTHS && (forall k :: 0 <= k < |lengths| ==> lengths[k] < 16) && lengths[i] > 0
    requires repeats < 6 && repeats <= i
    requires Packs(packed, counts, lengths, i - repeats) && prev == if i == 0 then 255 else lengths[i - 1]
    requires repeats > 0 ==> i > repeats && prev > 0 && forall k :: i - repeats - 1 <= k < i ==> lengths[k] == prev
    ensures repeats' < 6 && repeats' <= i + 1 && Packs(packed', counts', lengths, i + 1 - repeats')
    ensures repeats' > 0 ==> i + 1 > repeats' && forall k :: i - repeats' <= k < i + 1 ==> lengths[k] == lengths[i]
  {
    hide Packs;
    var size := lengths[i];
    packed', counts', repeats' := packed, counts, repeats;
    if size != prev {
      packed', counts' := FlushRepeats(packed', counts', lengths, i, prev, repeats');
      repeats' := 0;
      OneLiteral(packed', counts', lengths, i);
      counts' := counts'[size := (counts'[size] + 1) % 65536];
      packed' := packed' + [size];
    } else {
      repeats' := repeats' + 1;
      if repeats' == 6 {
        packed', counts' := FlushRepeats(packed', counts', lengths, i + 1, prev, repeats');
        repeats' := 0;
      }
    }
  }

  /** The packing loop (lines 1953 to 1977): never longer than its input, and expanding it gives the
      input back. */
  method Pack(lengths: seq<nat>) returns (packed: seq<nat>, counts: seq<nat>)
    requires |lengths| <= MAX_LENGTHS && forall i :: 0 <= i < |lengths| ==> lengths[i] < 16
    ensures Packs(packed, counts, lengths, |lengths|)
  {
    packed, counts := [], seq(19, _ => 0);
    var zeros: nat, repeats: nat, prev: nat := 0, 0, 255;
    assert lengths[..0] == [];
    hide Packs;
    for i := 0 to |lengths|
      invariant zeros < 138 && repeats < 6 && zeros + repeats <= i && (zeros == 0 || repeats == 0)
      invariant Packs(packed, counts, lengths, i - zeros - repeats)
      invariant prev == if i == 0 then 255 else lengths[i - 1]
      invariant forall k :: i - zeros <= k < i ==> lengths[k] == 0
      invariant repeats > 0 ==> i > repeats && prev > 0 && forall k :: i - repeats - 1 <= k < i ==> lengths[k] == prev
    {
      var size := lengths[i];
      if size == 0 {
        packed, counts := FlushRepeats(packed, counts, lengths, i, prev, repeats);
        repeats, zeros := 0, zeros + 1;
        if zeros == 138 {
          packed, counts := FlushZeros(packed, counts, lengths, i + 1, zeros);
          zeros := 0;
        }
      } else {
        packed, counts := FlushZeros(packed, counts, lengths, i, zeros);
        zeros := 0;
        packed, counts, repeats := PackLength(packed, counts, lengths, i, prev, repeats);
      }
      prev := size;
    }
    if repeats > 0 {
      packed, counts := FlushRepeats(packed, counts, lengths, |lengths|, prev, repeats);
    } else {
      packed, counts := FlushZeros(packed, counts, lengths, |lengths|, zeros);
    }
  }

  lemma OneLiteral(packed: seq<nat>, counts: seq<nat>, lengths: seq<nat>, i: nat)
    requires i < |lengths| <= MAX_LENGTHS && lengths[i] < 16 && Packs(packed, counts, lengths, i)
    ensures |counts| == 19 && Packs(packed + [lengths[i]], counts[lengths[i] := (counts[lengths[i]] + 1) % 65536], lengths, i + 1)
  {
    ExpandLiterals(lengths[i], 1, lengths[..i]);
    assert Repeated(lengths[i], 1) == [lengths[i]] && lengths[..i] + [lengths[i]] == lengths[..i + 1];
    PacksMore(packed, counts, lengths, i, [lengths[i]], lengths[i], 1, 1);
  }

  // ---------------------------------------------------------------- unpacking

  const LEN_CODES := 457

  /** The lengths that one of the symbols 16, 17 and 18 stands for. */
  function RunOf(symbol: nat, extra: nat, out: seq<nat>): seq<nat>
    requires symbol == 16 ==> out != []
  {
    Repeated(if symbol == 16 then out[|out| - 1] else 0, extra + Base(symbol))
  }

  /** The inflater stops as soon as it has `total` lengths, and fails if a run takes it further. */
  function Inflated(stream: seq<nat>, out: seq<nat>, total: nat): Unpacked {
    if |out| >= total then if |out| == total then Lengths(out) else Failed
    else if stream == [] then NeedsInput
    else if stream[0] < 16 then Inflated(stream[1..], out + [stream[0]], total)
    else if stream[0] == 16 && out == [] then Failed
    else if |stream| == 1 then NeedsInput
    else
      var x := if stream[0] == 16 then out[|out| - 1] else 0;
      Inflated(stream[2..], out + Repeated(x, stream[1] + Base(stream[0])), total)
  }

  /** A packed vector inflates to itself, whatever follows it in the stream. */
  lemma {:induction false} InflatedPacked(p: seq<nat>, rest: seq<nat>, out: seq<nat>, lengths: seq<nat>)
    requires Encodable(p) && Expand(p, out) == Lengths(lengths)
    ensures Inflated(p + rest, out, |lengths|) == Lengths(lengths) && |out| <= |lengths|
    ensures p != [] ==> |out| < |lengths|
  {
    if p == [] {
    } else if p[0] < 16 {
      assert (p + rest)[1..] == p[1..] + rest;
      InflatedPacked(p[1..], rest, out + [p[0]], lengths);
    } else {
      assert (p + rest)[2..] == p[2..] + rest;
      var x := if p[0] == 16 then out[|out| - 1] else 0;
      InflatedPacked(p[2..], rest, out + Repeated(x, p[1] + Base(p[0])), lengths);
    }
  }

  /** Symbols of the third table, each of 16, 17 and 18 followed by what its extra bits hold. */
  predicate Received(stream: seq<nat>) {
    stream == []
    || (stream[0] < 16 && Received(stream[1..]))
    || (16 <= stream[0] <= 18 && (|stream| == 1 || (stream[1] < ExtraLimit(stream[0]) && Received(stream[2..]))))
  }

  /** Lines 1535 to 1548: no stream makes the loop write past the 457 bytes it has. */
  method Unpack(stream: seq<nat>, total: nat) returns (r: Unpacked)
    requires Received(stream) && total <= MAX_LENGTHS
    ensures r == Inflated(stream, [], total)
  {
    hide Inflated, Received;
    var lenCodes := new nat[LEN_CODES](_ => 0);
    var counter, at := 0, 0;
    assert stream[0..] == stream && lenCodes[..0] == [];
    while counter < total
      invariant counter <= LEN_CODES && (counter < total ==> counter <= MAX_LENGTHS) && at <= |stream| && Received(stream[at..])
      invariant Inflated(stream, [], total) == Inflated(stream[at..], lenCodes[..counter], total)
      decreases total - counter
    {
      InflateStep(stream[at..], lenCodes[..counter], total);
      if at == |stream| {
        return NeedsInput;
      }
      var dist := stream[at];
      assert stream[at..][1..] == stream[at + 1..];
      if dist < 16 {
        ghost var before := lenCodes[..counter];
        lenCodes[counter] := dist;
        assert lenCodes[..counter + 1] == before + [dist];
        counter, at := counter + 1, at + 1;
      } else if dist == 16 && counter == 0 {
        return Failed;
      } else if at + 1 == |stream| {
        return NeedsInput;
      } else {
        assert stream[at..][2..] == stream[at + 2..];
        counter := PlaceRun(lenCodes, counter, dist, stream[at + 1]);
        at := at + 2;
      }
    }
    InflateStep(stream[at..], lenCodes[..counter], total);
    if total != counter {
      return Failed;
    }
    return Lengths(lenCodes[..counter]);
  }

  /** `memset` on a part of an array. */
  method Fill(a: array<nat>, start: nat, x: nat, n: nat)
    requires start + n <= a.Length
    modifies a
    ensures a[..start + n] == old(a[..start]) + Repeated(x, n)
  {
    for i := 0 to n
      invariant a[..start] == old(a[..start])
      invariant forall k :: start <= k < start + i ==> a[k] == x
    {
      a[start + i] := x;
    }
  }

  /** Lines 1541 to 1543: a run of the last length, or of zeros. */
  method PlaceRun(lenCodes: array<nat>, counter: nat, symbol: nat, extra: nat) returns (next: nat)
    requires (symbol == 16 ==> counter > 0) && counter + extra + Base(symbol) <= lenCodes.Length
    modifies lenCodes
    ensures next == counter + extra + Base(symbol)
    ensures lenCodes[..next] == old(lenCodes[..counter]) + RunOf(symbol, extra, old(lenCodes[..counter]))
  {
    var s := extra + Base(symbol);
    var x := if symbol == 16 then lenCodes[counter - 1] else 0;
    Fill(lenCodes, counter, x, s);
    next := counter + s;
  }

  lemma InflateStep(stream: seq<nat>, out: seq<nat>, total: nat)
    requires Received(stream)
    ensures |out| == total ==> Inflated(stream, out, total) == Lengths(out)
    ensures |out| > total ==> Inflated(stream, out, total) == Failed
    ensures |out| < total && stream == [] ==> Inflated(stream, out, total) == NeedsInput
    ensures |out| < total && stream != [] && stream[0] < 16
            ==> Received(stream[1..]) && Inflated(stream, out, total) == Inflated(stream[1..], out + [stream[0]], total)
    ensures |out| < total && stream != [] && stream[0] == 16 && out == [] ==> Inflated(stream, out, total) == Failed
    ensures |out| < total && stream != [] && stream[0] >= 16 && !(stream[0] == 16 && out == [])
            ==> if |stream| == 1 then Inflated(stream, out, total) == NeedsInput
                else stream[0] <= 18 && stream[1] < 128 && (stream[0] < 18 ==> stream[1] < 8) && Received(stream[2..])
                     && Inflated(stream, out, total)
                        == Inflated(stream[2..], out + Repeated(if stream[0] == 16 then out[|out| - 1] else 0, stream[1] + Base(stream[0])), total)
  {
  }

  /** Unpacking what was packed gives the lengths back. */
  method RoundTrip(lengths: seq<nat>, rest: seq<nat>) returns (r: Unpacked)
    requires |lengths| <= MAX_LENGTHS && (forall i :: 0 <= i < |lengths| ==> lengths[i] < 16) && Received(rest)
    ensures r == Lengths(lengths)
  {
    var packed, counts := Pack(lengths);
    assert lengths[..|lengths|] == lengths;
    InflatedPacked(packed, rest, [], lengths);
    ReceivedPacked(packed, rest);
    r := Unpack(packed + rest, |lengths|);
  }

  lemma {:induction false} ReceivedPacked(p: seq<nat>, rest: seq<nat>)
    requires Encodable(p) && Received(rest)
    ensures Received(p + rest)
  {
    if p == [] {
      assert p + rest == rest;
    } else if p[0] < 16 {
      assert (p + rest)[1..] == p[1..] + rest;
      ReceivedPacked(p[1..], rest);
    } else {
      assert (p + rest)[2..] == p[2..] + rest;
      ReceivedPacked(p[2..], rest);
    }
  }
}
