/** How `tinfl_decompress` of `src/miniz.c` copies a match inside its output buffer: byte by byte when it
    may wrap or run out of room, eight bytes at a time when that is safe, and three at a time otherwise. */
module MatchCopy {
  import opened Bits
  import opened LzTokens

  datatype Outcome = Copied(cur: nat) | HasMoreOutput(cur: nat, left: nat) | Failed | Overrun

  /** The place `dist` bytes before `p`, in a buffer of `size` bytes that wraps. */
  function Back(p: nat, dist: nat, size: nat): (q: nat)
    requires size > 0
    ensures q < size
  {
    (p as int - dist) % size
  }

  /** The buffer after `n` bytes at `cur` were copied one by one from `dist` bytes back. */
  ghost function Sequential(s: seq<Byte>, cur: nat, dist: nat, n: nat): (r: seq<Byte>)
    requires cur + n <= |s| && |s| > 0
    ensures |r| == |s|
    decreases n
  {
    if n == 0 then s
    else
      var t := Sequential(s, cur, dist, n - 1);
      t[cur + n - 1 := t[Back(cur + n - 1, dist, |s|)]]
  }

  /** In a buffer that has not wrapped this is the copy of section 3.2.3 of RFC 1951. */
  lemma {:induction false} SequentialIsCopyBack(s: seq<Byte>, cur: nat, dist: nat, n: nat)
    requires 1 <= dist <= cur && cur + n <= |s|
    ensures Sequential(s, cur, dist, n)[..cur + n] == CopyBack(s[..cur], dist, n)
  {
    hide Back;
    if n > 0 {
      BackInside(cur + n - 1, dist, |s|);
      SequentialIsCopyBack(s, cur, dist, n - 1);
      CopyBackOneMore(s[..cur], dist, n - 1);
      var t := Sequential(s, cur, dist, n - 1);
      assert t[..cur + n - 1][cur + n - 1 - dist] == t[cur + n - 1 - dist];
    }
  }

  lemma BackInside(p: nat, dist: nat, size: nat)
    requires dist <= p < size
    ensures Back(p, dist, size) == p - dist
  {
  }

  lemma {:induction false} CopyBackOneMore(out: seq<Byte>, dist: nat, n: nat)
    requires 1 <= dist <= |out|
    ensures var c := CopyBack(out, dist, n); CopyBack(out, dist, n + 1) == c + [c[|c| - dist]]
    decreases n
  {
    if n > 0 {
      CopyBackOneMore(out + [out[|out| - dist]], dist, n - 1);
    }
  }

  // ---------------------------------------------------------------- where the source is contiguous

  /** Copying `k` bytes onwards from an unwrapped source is copying from consecutive places. */
  lemma BackConsecutive(cur: nat, dist: nat, size: nat, i: nat)
    requires size > 0 && Back(cur, dist, size) + i < size
    ensures Back(cur + i, dist, size) == Back(cur, dist, size) + i
  {
    var q := (cur as int - dist) / size;
    assert cur as int - dist == size * q + Back(cur, dist, size);
    RemainderIs(cur as int + i - dist, q, Back(cur, dist, size) + i, size);
  }

  lemma RemainderIs(x: int, q: int, r: nat, size: nat)
    requires x == size * q + r && r < size
    ensures x % size == r
  {
    var p := x / size;
    Multiples(size, q - p);
    assert size * (q - p) == size * q - size * p;
  }

  lemma Multiples(size: int, k: int)
    requires size >= 0
    ensures k >= 1 ==> size * k >= size
    ensures k <= -1 ==> size * k <= -size
  {
  }

  /** The four bytes at `from` have been read, and then written at `to`. */
  ghost predicate WordCopied(u: seq<Byte>, t: seq<Byte>, to: nat, from: nat) {
    && to + 4 <= |u| == |t| && from + 4 <= |u|
    && t[to] == u[from] && t[to + 1] == u[from + 1] && t[to + 2] == u[from + 2] && t[to + 3] == u[from + 3]
    && forall i :: 0 <= i < to || to + 4 <= i < |u| ==> t[i] == u[i]
  }

  /** Four bytes read and then written do what four single copies do, unless the first of them are among
      the last. */
  lemma FourAtOnce(s: seq<Byte>, cur: nat, dist: nat, n: nat, t: seq<Byte>)
    requires cur + n + 4 <= |s| && Back(cur, dist, |s|) + n + 4 <= |s|
    requires Back(cur, dist, |s|) >= cur || Back(cur, dist, |s|) + 4 <= cur
    requires |t| == |s| && WordCopied(Sequential(s, cur, dist, n), t, cur + n, Back(cur, dist, |s|) + n)
    ensures t == Sequential(s, cur, dist, n + 4)
  {
    hide Back, Sequential, WordCopied;
    var src := Back(cur, dist, |s|);
    OneStep(s, cur, dist, n);
    OneStep(s, cur, dist, n + 1);
    OneStep(s, cur, dist, n + 2);
    OneStep(s, cur, dist, n + 3);
    var u := Sequential(s, cur, dist, n);
    FourWrites(u, Sequential(s, cur, dist, n + 1), Sequential(s, cur, dist, n + 2),
               Sequential(s, cur, dist, n + 3), Sequential(s, cur, dist, n + 4), cur + n, src + n, t);
  }

  lemma FourWrites(u: seq<Byte>, u1: seq<Byte>, u2: seq<Byte>, u3: seq<Byte>, u4: seq<Byte>, to: nat, from: nat, t: seq<Byte>)
    requires WordCopied(u, t, to, from) && to + 4 <= |u| == |t| && from + 4 <= |u| && (from >= to || from + 3 < to)
    requires |u1| == |u2| == |u3| == |u4| == |u|
    requires u1 == u[to := u[from]] && u2 == u1[to + 1 := u1[from + 1]]
    requires u3 == u2[to + 2 := u2[from + 2]] && u4 == u3[to + 3 := u3[from + 3]]
    ensures t == u4
  {
    assert u3[to + 3] == u[to + 3] && u2[to + 2] == u[to + 2] && u1[to + 1] == u[to + 1];
    assert u4[to] == u[from] && u4[to + 1] == u1[from + 1] && u4[to + 2] == u2[from + 2] && u4[to + 3] == u3[from + 3];
    assert u1[from + 1] == u[from + 1] && u2[from + 2] == u[from + 2] && u3[from + 3] == u[from + 3];
  }

  /** One byte more, from a source that has not wrapped. */
  lemma OneStep(s: seq<Byte>, cur: nat, dist: nat, n: nat)
    requires cur + n < |s| && Back(cur, dist, |s|) + n < |s|
    ensures var t := Sequential(s, cur, dist, n); Sequential(s, cur, dist, n + 1) == t[cur + n := t[Back(cur, dist, |s|) + n]]
  {
    hide Back;
    BackConsecutive(cur, dist, |s|, n);
  }

  /** Copying on from where a copy stopped. */
  lemma {:induction false} SequentialConcat(s: seq<Byte>, cur: nat, dist: nat, n: nat, m: nat)
    requires cur + n + m <= |s| && |s| > 0
    ensures Sequential(Sequential(s, cur, dist, n), cur + n, dist, m) == Sequential(s, cur, dist, n + m)
    decreases m
  {
    hide Back;
    if m > 0 { SequentialConcat(s, cur, dist, n, m - 1); }
  }

  // ---------------------------------------------------------------- the copying loops

  /** Reading four bytes and then writing them does what four single copies do. */
  ghost predicate Apart(cur: nat, dist: nat, size: nat)
    requires size > 0
  {
    Back(cur, dist, size) >= cur || Back(cur, dist, size) + 4 <= cur
  }

  /** One byte more, at consecutive places. */
  method CopyByte(buf: array<Byte>, ghost s: seq<Byte>, ghost cur: nat, ghost dist: nat, ghost n: nat, to: nat, from: nat)
    requires cur + n < |s| && buf[..] == Sequential(s, cur, dist, n) && to == cur + n
    requires from == Back(cur, dist, |s|) + n < |s|
    modifies buf
    ensures buf[..] == Sequential(s, cur, dist, n + 1)
  {
    hide Back;
    BackConsecutive(cur, dist, |s|, n);
    buf[to] := buf[from];
  }

  /** Lines 1634 to 1640: two 32-bit words per round. */
  method CopyWords(buf: array<Byte>, cur: nat, src: nat, counter: nat, ghost dist: nat)
    requires 0 < buf.Length && src == Back(cur, dist, buf.Length) && 9 <= counter
    requires cur + counter <= buf.Length && src + counter <= buf.Length
    modifies buf
    ensures Apart(cur, dist, buf.Length) ==> buf[..] == Sequential(old(buf[..]), cur, dist, counter / 8 * 8)
  {
    hide Back, Sequential, Apart;
    ghost var s := buf[..];
    var i := 0;
    NothingCopied(s, cur, dist);
    while i < counter / 8 * 8
      invariant i % 8 == 0 && 0 <= i <= counter / 8 * 8
      invariant Apart(cur, dist, |s|) ==> buf[..] == Sequential(s, cur, dist, i)
    {
      CopyWord(buf, s, cur, dist, i, src);
      CopyWord(buf, s, cur, dist, i + 4, src);
      i := i + 8;
    }
  }

  lemma NothingCopied(s: seq<Byte>, cur: nat, dist: nat)
    requires cur <= |s| && |s| > 0
    ensures Sequential(s, cur, dist, 0) == s
  {
  }

  method CopyWord(buf: array<Byte>, ghost s: seq<Byte>, cur: nat, ghost dist: nat, i: nat, src: nat)
    requires |s| == buf.Length > 0 && src == Back(cur, dist, |s|) && cur + i + 4 <= |s| && src + i + 4 <= |s|
    requires Apart(cur, dist, |s|) ==> buf[..] == Sequential(s, cur, dist, i)
    modifies buf
    ensures Apart(cur, dist, |s|) ==> buf[..] == Sequential(s, cur, dist, i + 4)
  {
    hide Back, Sequential;
    ghost var u := buf[..];
    var a, b, c, d := buf[src + i], buf[src + i + 1], buf[src + i + 2], buf[src + i + 3];
    buf[cur + i] := a;
    buf[cur + i + 1] := b;
    buf[cur + i + 2] := c;
    buf[cur + i + 3] := d;
    if Apart(cur, dist, |s|) { FourAtOnce(s, cur, dist, i, buf[..]); }
  }

  /** How many bytes the loop over threes writes: it tests only after the first round. */
  function Reach(counter: nat): nat {
    if counter < 3 then 3 else counter
  }

  /** Lines 1654 to 1667: three bytes per round, then what is left. */
  method CopyThrees(buf: array<Byte>, cur: nat, ghost dist: nat, src: nat, counter: nat)
    requires 0 < buf.Length && src == Back(cur, dist, buf.Length)
    requires cur + Reach(counter) <= buf.Length && src + Reach(counter) <= buf.Length
    modifies buf
    ensures buf[..] == Sequential(old(buf[..]), cur, dist, Reach(counter))
  {
    hide Back, Sequential;
    ghost var s := buf[..];
    NothingCopied(s, cur, dist);
    var i: nat := 0;
    CopyThree(buf, s, cur, dist, i, src);
    i := 3;
    while counter - i > 2
      invariant 3 <= i <= Reach(counter) && buf[..] == Sequential(s, cur, dist, i) && buf.Length == |s|
    {
      CopyThree(buf, s, cur, dist, i, src);
      i := i + 3;
    }
    if counter - i > 0 {
      BackConsecutive(cur, dist, |s|, i);
      CopyRest(buf, cur + i, dist, src + i, counter - i);
      SequentialConcat(s, cur, dist, i, counter - i);
    }
  }

  method CopyThree(buf: array<Byte>, ghost s: seq<Byte>, cur: nat, ghost dist: nat, i: nat, src: nat)
    requires |s| > 0 && src == Back(cur, dist, |s|) && cur + i + 3 <= |s| && src + i + 3 <= |s|
    requires buf[..] == Sequential(s, cur, dist, i)
    modifies buf
    ensures buf[..] == Sequential(s, cur, dist, i + 3)
  {
    hide Back, Sequential;
    CopyByte(buf, s, cur, dist, i, cur + i, src + i);
    CopyByte(buf, s, cur, dist, i + 1, cur + i + 1, src + i + 1);
    CopyByte(buf, s, cur, dist, i + 2, cur + i + 2, src + i + 2);
  }

  /** One or two bytes. */
  method CopyRest(buf: array<Byte>, cur: nat, ghost dist: nat, src: nat, counter: nat)
    requires 0 < buf.Length && src == Back(cur, dist, buf.Length) && 1 <= counter <= 2
    requires cur + counter <= buf.Length && src + counter <= buf.Length
    modifies buf
    ensures buf[..] == Sequential(old(buf[..]), cur, dist, counter)
  {
    hide Back, Sequential;
    ghost var s := buf[..];
    NothingCopied(s, cur, dist);
    CopyByte(buf, s, cur, dist, 0, cur, src);
    if counter > 1 {
      CopyByte(buf, s, cur, dist, 1, cur + 1, src + 1);
    }
  }

  /** Lines 1622 to 1630: one byte at a time with the index masked, as long as there is room. */
  method CopyMasked(buf: array<Byte>, cur: nat, dist: nat, counter: nat) returns (n: nat)
    requires cur <= buf.Length && buf.Length > 0
    modifies buf
    ensures n == if cur + counter <= buf.Length then counter else buf.Length - cur
    ensures buf[..] == Sequential(old(buf[..]), cur, dist, n)
  {
    ghost var s := buf[..];
    n := 0;
    while n < counter && cur + n < buf.Length
      invariant n <= counter && cur + n <= buf.Length && buf[..] == Sequential(s, cur, dist, n)
    {
      buf[cur + n] := buf[Back(cur + n, dist, buf.Length)];
      n := n + 1;
    }
  }

  /** Words first, then the last bytes. */
  method CopyByWords(buf: array<Byte>, cur: nat, ghost dist: nat, src: nat, counter: nat)
    requires 0 < buf.Length && src == Back(cur, dist, buf.Length) && 9 <= counter
    requires cur + counter <= buf.Length && src + counter <= buf.Length
    modifies buf
    ensures Apart(cur, dist, buf.Length) ==> buf[..] == Sequential(old(buf[..]), cur, dist, counter)
  {
    hide Back, Sequential, Apart;
    ghost var s := buf[..];
    CopyWords(buf, cur, src, counter, dist);
    var done := counter / 8 * 8;
    if done < counter {
      BackConsecutive(cur, dist, |s|, done);
      SequentialConcat(s, cur, dist, done, counter - done);
      if counter % 8 < 3 {
        CopyRest(buf, cur + done, dist, src + done, counter - done);
      } else {
        CopyThrees(buf, cur + done, dist, src + done, counter - done);
      }
    }
  }

  /** Lines 1614 to 1667: whichever way it is done, the buffer ends up as after copying byte by byte; only in a
      wrapping buffer that is smaller than the distance words may overlap.  The inflater asks for a wrapping
      buffer of at least the 32768 bytes that a distance can reach.

      A length of 0, which no stream may ask for, copies three bytes, and does not ask whether there is room for
      them.  `Overrun` stands for a write behind the buffer, which is not carried out here. */
  method CopyMatch(buf: array<Byte>, cur: nat, dist: nat, counter: nat, wrapping: bool) returns (r: Outcome)
    requires cur <= buf.Length && (counter == 0 || MIN_MATCH <= counter <= MAX_MATCH)
    requires buf.Length > 0 || (dist > cur && !wrapping)
    modifies buf
    ensures r.Failed? <==> dist > cur && !wrapping
    ensures r.Failed? || r.Overrun? ==> buf[..] == old(buf[..])
    ensures r.Overrun? ==> counter == 0
    ensures !wrapping && 1 <= dist <= cur && counter == 0 ==> (r.Overrun? <==> cur + 3 > buf.Length)
    ensures r.Copied? ==> r.cur == cur + Reach(counter) <= buf.Length
    ensures r.Copied? && (dist <= buf.Length || Apart(cur, dist, buf.Length)) ==> buf[..] == Sequential(old(buf[..]), cur, dist, Reach(counter))
    ensures r.HasMoreOutput? ==> r.cur == buf.Length == cur + counter - r.left && r.left > 0
    ensures r.HasMoreOutput? ==> buf[..] == Sequential(old(buf[..]), cur, dist, counter - r.left)
    ensures r.Copied? && 1 <= dist <= cur ==> buf[..r.cur] == CopyBack(old(buf[..cur]), dist, Reach(counter))
  {
    hide Sequential, CopyBack, Apart, Back;
    if dist > cur && !wrapping {
      return Failed;
    }
    ghost var s := buf[..];
    var src := Back(cur, dist, buf.Length);
    if 1 <= dist <= cur { BackBefore(cur, dist, buf.Length); }
    if (if cur >= src then cur else src) + counter > buf.Length {
      var n := CopyMasked(buf, cur, dist, counter);
      if n < counter {
        return HasMoreOutput(cur + n, counter - n);
      }
    } else if 9 <= counter <= dist {
      if dist <= buf.Length { WordsApart(cur, dist, buf.Length); }
      CopyByWords(buf, cur, dist, src, counter);
    } else {
      if (if cur >= src then cur else src) + Reach(counter) > buf.Length {
        return Overrun;
      }
      CopyThrees(buf, cur, dist, src, counter);
    }
    if 1 <= dist <= cur {
      SequentialIsCopyBack(s, cur, dist, Reach(counter));
      assert s[..cur] == old(buf[..cur]) && buf[..cur + Reach(counter)] == buf[..][..cur + Reach(counter)];
    }
    return Copied(cur + Reach(counter));
  }

  lemma BackBefore(cur: nat, dist: nat, size: nat)
    requires 1 <= dist <= cur <= size
    ensures Back(cur, dist, size) == cur - dist
  {
  }

  /** A source that lies before the destination is as far before it as the distance, or further. */
  lemma WordsApart(cur: nat, dist: nat, size: nat)
    requires cur < size && 9 <= dist <= size
    ensures Apart(cur, dist, size)
  {
    if dist <= cur {
      BackInside(cur, dist, size);
    } else {
      RemainderIs(cur as int - dist, -1, cur + size - dist, size);
    }
  }
}
