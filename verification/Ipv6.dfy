/** `to_v6` and `from_v6` of `src/address.cpp`. */
module Ipv6 {
  import opened Ipv6Text
  import opened Sequences

  // ---------------------------------------------------------------- the longest run of zeros

  /** `best` is the first of the longest runs that end at `e` or before. */
  ghost predicate BestUpTo(w: seq<nat>, best: Run, e: nat) {
    && e <= |w| && best.base >= -1
    && (best.base >= 0 ==> best.len >= 1 && best.base + best.len <= e && IsRun(w, best.base, best.len))
    && forall b: nat, n: nat :: n >= 1 && b + n <= e && IsRun(w, b, n)
         ==> best.base >= 0 && n <= best.len && (n == best.len ==> best.base <= b)
  }

  /** A run of zeros with nothing or a non-zero word before it. */
  ghost predicate OpenRun(w: seq<nat>, base: nat, i: nat) {
    base < i <= |w| && IsRun(w, base, i - base) && (base > 0 ==> w[base - 1] != 0)
  }

  function Longer(best: Run, base: nat, len: nat): Run {
    if best.base == -1 || len > best.len then Run(base, len) else best
  }

  lemma RunAt(w: seq<nat>, b: nat, n: nat, i: nat)
    requires IsRun(w, b, n) && b <= i < b + n
    ensures i < |w| && w[i] == 0
  {
  }

  lemma RunClosed(w: seq<nat>, best: Run, base: nat, i: nat)
    requires OpenRun(w, base, i) && BestUpTo(w, best, base)
    ensures BestUpTo(w, Longer(best, base, i - base), i)
  {
    forall b: nat, n: nat | n >= 1 && b + n <= i && IsRun(w, b, n)
      ensures b + n <= base || (b >= base && n <= i - base)
    {
      assert base > 0 ==> !(b <= base - 1 < b + n);
    }
  }

  lemma NonZeroPassed(w: seq<nat>, best: Run, i: nat)
    requires i < |w| && w[i] != 0 && BestUpTo(w, best, i)
    ensures BestUpTo(w, best, i + 1)
  {
    forall b: nat, n: nat | n >= 1 && b + n <= i + 1 && IsRun(w, b, n) ensures b + n <= i {
      if b + n == i + 1 { RunAt(w, b, n, i); }
    }
  }

  /** Lines 473 to 505. */
  method FindRun(w: seq<nat>) returns (best: Run)
    ensures IsBest(w, best)
  {
    hide BestUpTo;
    best := Run(-1, 0);
    NoRuns(w);
    var curBase, curLen: nat := -1, 0;
    for i := 0 to |w|
      invariant curBase == -1 ==> BestUpTo(w, best, i) && (i > 0 ==> w[i - 1] != 0)
      invariant curBase != -1 ==> 0 <= curBase && curLen == i - curBase && OpenRun(w, curBase, i) && BestUpTo(w, best, curBase)
    {
      if w[i] == 0 {
        if curBase == -1 {
          curBase, curLen := i, 1;
        } else {
          curLen := curLen + 1;
        }
      } else {
        if curBase != -1 {
          RunClosed(w, best, curBase, i);
          best := Longer(best, curBase, curLen);
          curBase := -1;
        }
        NonZeroPassed(w, best, i);
      }
    }
    if curBase != -1 {
      RunClosed(w, best, curBase, |w|);
      best := Longer(best, curBase, curLen);
    }
    BestOfAll(w, best);
    if best.base != -1 && best.len < 2 {
      best := Run(-1, best.len);
    }
  }

  lemma NoRuns(w: seq<nat>)
    ensures BestUpTo(w, Run(-1, 0), 0)
  {
  }

  lemma BestOfAll(w: seq<nat>, best: Run)
    requires BestUpTo(w, best, |w|)
    ensures IsBest(w, if best.base != -1 && best.len < 2 then Run(-1, best.len) else best)
  {
    forall b: nat, n: nat | IsRun(w, b, n) ensures n == 0 || (best.base >= 0 && n <= best.len && (n == best.len ==> best.base <= b)) {
    }
  }

  // ---------------------------------------------------------------- writing

  lemma JoinNothing()
    ensures Join([]) == ""
  {
  }

  lemma JoinOneMore(w: seq<nat>, x: nat)
    ensures Join(w + [x]) == if w == [] then Hex(x) else Join(w) + ":" + Hex(x)
  {
    hide Hex, Separated;
    assert Hexes(w + [x]) == Hexes(w) + [Hex(x)];
    SeparatedNext(Hexes(w), Hex(x));
  }

  /** What is written when `i` words are done. */
  ghost function Written(w: seq<nat>, r: Run, i: nat): string
    requires i <= |w| && (r.base >= 0 ==> r.base + r.len <= |w|)
  {
    if r.base < 0 || i <= r.base then Join(w[..i])
    else if i <= r.base + r.len then Join(w[..r.base]) + ":"
    else Join(w[..r.base]) + "::" + Join(w[r.base + r.len..i])
  }

  lemma WordWritten(w: seq<nat>, r: Run, i: nat)
    requires i < |w| && (r.base >= 0 ==> r.base + r.len <= |w| && r.len >= 2) && !(r.base <= i < r.base + r.len && r.base >= 0)
    ensures Written(w, r, i + 1) == Written(w, r, i) + (if i != 0 then ":" else "") + Hex(w[i])
  {
    hide Hex, Join;
    if r.base < 0 || i < r.base {
      assert w[..i + 1] == w[..i] + [w[i]];
      JoinOneMore(w[..i], w[i]);
      JoinNothing();
    } else {
      BehindRun(Join(w[..r.base]), w, r.base + r.len, i);
    }
  }

  lemma BehindRun(front: string, w: seq<nat>, end: nat, i: nat)
    requires end <= i < |w|
    ensures front + "::" + Join(w[end..i + 1]) == (if i == end then front + ":" else front + "::" + Join(w[end..i])) + ":" + Hex(w[i])
  {
    hide Hex, Join;
    assert w[end..i + 1] == w[end..i] + [w[i]];
    JoinOneMore(w[end..i], w[i]);
    if i == end {
      assert front + "::" + Hex(w[i]) == front + ":" + ":" + Hex(w[i]);
    } else {
      assert front + "::" + (Join(w[end..i]) + ":" + Hex(w[i])) == front + "::" + Join(w[end..i]) + ":" + Hex(w[i]);
    }
  }

  lemma RunWritten(w: seq<nat>, r: Run, i: nat)
    requires i < |w| && r.base >= 0 && r.base + r.len <= |w| && r.base <= i < r.base + r.len
    ensures Written(w, r, i + 1) == Written(w, r, i) + if i == r.base then ":" else ""
  {
  }

  lemma AllWritten(w: seq<nat>, r: Run)
    requires r.base >= 0 ==> r.base + r.len <= |w| && r.len >= 2
    ensures Text(w, r) == Written(w, r, |w|) + if r.base >= 0 && r.base + r.len == |w| then ":" else ""
  {
    assert w[..|w|] == w;
    if r.base >= 0 && r.base + r.len == |w| {
      JoinNothing();
    }
  }

  class Address {
    var isV6: bool
    var bytes: seq<nat>

    ghost predicate Valid()
      reads this
    {
      |bytes| == 16 && forall i :: 0 <= i < 16 ==> bytes[i] < 256
    }

    ghost function Words(): (w: seq<nat>)
      requires Valid()
      reads this
      ensures AreWords(w) && WordBytes(w) == bytes
    {
      WordsOf(bytes)
    }

    constructor (bytes: seq<nat>)
      requires |bytes| == 16 && forall i :: 0 <= i < 16 ==> bytes[i] < 256
      ensures Valid() && isV6 && this.bytes == bytes
    {
      isV6, this.bytes := true, bytes;
    }

    /** `to_v6` (lines 449 to 558). */
    method ToV6() returns (os: string)
      requires Valid()
      ensures exists r: Run :: IsBest(Words(), r) && (r.base >= 0 ==> r.base + r.len <= 8) && os == Printed(Words(), r, bytes)
    {
      hide IsBest, Written, Text, Hex, Join, WordBytes;
      var words := seq(8, i requires 0 <= i < 8 && |bytes| == 16 reads this => bytes[2 * i] * 256 + bytes[2 * i + 1]);
      assert words == Words();
      var best := FindRun(words);
      BestShape(words, best);
      os := "";
      NothingWritten(words, best);
      var i := 0;
      while i < 8
        invariant 0 <= i <= 8 && os == Written(words, best, i)
        invariant Encapsulated(words, best) ==> i <= 6
      {
        if best.base != -1 && best.base <= i < best.base + best.len {
          RunWritten(words, best, i);
          if i == best.base {
            os := os + ":";
          }
        } else {
          WordWritten(words, best, i);
          if i != 0 {
            os := os + ":";
          }
          if i == 6 && best.base == 0 && (best.len == 6 || (best.len == 5 && words[5] == 0xffff)) {
            FrontWritten(words, best);
            os := os + Dotted(bytes);
            break;
          }
          os := os + Hex(words[i]);
        }
        i := i + 1;
      }
      AllWritten(words, best);
      if best.base != -1 && best.base + best.len == 8 {
        os := os + ":";
      }
    }
  
    /** `from_v6` (lines 656 to 749): leaves the object alone unless the text is an address. */
    method FromV6(s: string)
      modifies this
      ensures if Parse(CString(s)).Address? then isV6 && bytes == Parse(CString(s)).bytes else isV6 == old(isV6) && bytes == old(bytes)
    {
      var tmp := new nat[16](_ => 0);
      var ok := Read(CString(s), tmp);
      if ok {
        isV6, bytes := true, tmp[..];
      }
    }
  }

  /** Appends a group to the bytes read so far. */
  method PutGroup(tmp: array<nat>, tp: nat, val: nat)
    requires tp + 2 <= 16 == tmp.Length
    modifies tmp
    ensures tmp[..] == old(tmp[..tp]) + Pair(val) + old(tmp[tp + 2..])
  {
    tmp[tp] := val / 256 % 256;
    tmp[tp + 1] := val % 256;
  }

  /** The zeros that a double colon stands for: lines 729 to 738, in place although the places overlap. */
  method OpenGap(tmp: array<nat>, colon: nat, tp: nat)
    requires tmp.Length == 16 && colon <= tp < 16 && tmp[tp..] == Repeated<nat>(0, 16 - tp)
    modifies tmp
    ensures tmp[..] == old(tmp[..colon]) + Repeated<nat>(0, 16 - tp) + old(tmp[colon..tp])
  {
    ghost var b := tmp[..];
    var n := tp - colon;
    for i := 1 to n + 1
      invariant forall k :: 0 <= k < tp - (i - 1) ==> tmp[k] == b[k]
      invariant forall k :: tp - (i - 1) <= k < 16 - (i - 1) ==> tmp[k] == 0
      invariant forall k :: 16 - (i - 1) <= k < 16 ==> tmp[k] == b[k - (16 - tp)]
    {
      tmp[16 - i] := tmp[colon + n - i];
      tmp[colon + n - i] := 0;
    }
  }

  ghost predicate Filled(tmp: seq<nat>, tp: nat) {
    |tmp| == 16 && tp <= 16 && tmp[tp..] == Repeated<nat>(0, 16 - tp)
  }

  /** The loop over the characters (lines 676 to 717). */
  method ReadGroups(src: string, tmp: array<nat>) returns (ok: bool, tp: nat, colonp: int, val: nat, sawXdigit: bool)
    requires Filled(tmp[..], 0)
    modifies tmp
    ensures ok == Scan(src, Start).Reading?
    ensures ok ==> tp <= 16 && -1 <= colonp <= tp && Filled(tmp[..], tp) && Scan(src, Start) == Reading(tmp[..tp], colonp, val, sawXdigit)
  {
    hide Pair, Filled;
    var pos := 0;
    ok, tp, colonp, val, sawXdigit := true, 0, -1, 0, false;
    FilledTail(tmp[..], 0);
    assert tmp[..0] == [] && src[0..] == src;
    while pos < |src|
      invariant pos <= |src| && tp <= 16 && -1 <= colonp <= tp && Filled(tmp[..], tp)
      invariant tmp.Length == 16 && ok
      invariant Scan(src, Start) == Scan(src[pos..], Reading(tmp[..tp], colonp, val, sawXdigit))
    {
      var ch := ToLower(src[pos]);
      var d := DigitValue(ch);
      assert src[pos..][1..] == src[pos + 1..];
      BadStays(src[pos + 1..]);
      pos := pos + 1;
      if d >= 0 {
        val := val * 16 + d;
        if val > 0xffff {
          ok := false;
          return;
        }
        sawXdigit := true;
      } else if ch == ':' {
        if !sawXdigit {
          if colonp >= 0 {
            ok := false;
            return;
          }
          colonp := tp;
        } else {
          if pos == |src| || tp + 2 > 16 {
            ok := false;
            return;
          }
          ghost var b := tmp[..];
          PutGroup(tmp, tp, val);
          GroupFilled(b, tmp[..], tp, val);
          tp, sawXdigit, val := tp + 2, false, 0;
        }
      } else {
        ok := false;
        return;
      }
    }
    assert src[pos..] == "";
  }

  /** What follows the loop (lines 718 to 741): the last group, and the gap. */
  method Complete(tmp: array<nat>, tp0: nat, colonp: int, val: nat, sawXdigit: bool) returns (ok: bool)
    requires tp0 <= 16 && -1 <= colonp <= tp0 && Filled(tmp[..], tp0)
    modifies tmp
    ensures var f := Finish(Reading(old(tmp[..tp0]), colonp, val, sawXdigit)); ok == f.Address? && (ok ==> tmp[..] == f.bytes)
  {
    hide Pair, Repeated, Filled;
    var tp := tp0;
    FilledTail(tmp[..], tp);
    if sawXdigit {
      if tp + 2 > 16 {
        return false;
      }
      ghost var b := tmp[..];
      PutGroup(tmp, tp, val);
      GroupFilled(b, tmp[..], tp, val);
      tp := tp + 2;
    }
    if colonp >= 0 {
      if tp == 16 {
        return false;
      }
      FilledTail(tmp[..], tp);
      OpenGap(tmp, colonp, tp);
      tp := 16;
    }
    return tp == 16;
  }

  /** True for an address, which is then in `tmp`. */
  method Read(src: string, tmp: array<nat>) returns (ok: bool)
    requires tmp.Length == 16 && tmp[..] == Repeated<nat>(0, 16)
    modifies tmp
    ensures ok == Parse(src).Address? && (ok ==> tmp[..] == Parse(src).bytes)
  {
    hide Scan, Finish, Filled;
    var text := src;
    if |src| > 0 && src[0] == ':' {
      if !(|src| > 1 && src[1] == ':') {
        return false;
      }
      text := src[1..];
    }
    StartFilled(tmp[..]);
    var tp, colonp, val, sawXdigit;
    ok, tp, colonp, val, sawXdigit := ReadGroups(text, tmp);
    BadFinish();
    if ok {
      ok := Complete(tmp, tp, colonp, val, sawXdigit);
    }
  }

  lemma StartFilled(tmp: seq<nat>)
    requires tmp == Repeated<nat>(0, 16)
    ensures Filled(tmp, 0)
  {
  }

  lemma FilledTail(tmp: seq<nat>, tp: nat)
    requires Filled(tmp, tp)
    ensures |tmp| == 16 && tp <= 16 && tmp[tp..] == Repeated<nat>(0, 16 - tp)
  {
  }

  lemma GroupFilled(b: seq<nat>, t: seq<nat>, tp: nat, val: nat)
    requires Filled(b, tp) && tp + 2 <= 16 && t == b[..tp] + Pair(val) + b[tp + 2..]
    ensures Filled(t, tp + 2) && t[..tp + 2] == b[..tp] + Pair(val)
  {
    assert t[tp + 2..] == b[tp..][2..];
  }

  lemma NothingWritten(w: seq<nat>, r: Run)
    requires |w| == 8 && (r.base >= 0 ==> r.base + r.len <= |w|)
    ensures Written(w, r, 0) == ""
  {
  }

  lemma BestShape(w: seq<nat>, r: Run)
    requires AreWords(w) && IsBest(w, r)
    ensures r.base >= -1 && (r.base >= 0 ==> r.base + r.len <= 8 && r.len >= 2)
  {
  }

  lemma FrontWritten(w: seq<nat>, r: Run)
    requires |w| == 8 && Encapsulated(w, r)
    ensures Written(w, r, 6) + ":" == "::" + if r.len == 5 then "ffff:" else ""
  {
    assert w[..0] == [];
    if r.len == 5 {
      assert w[5..6] == [0xffff];
      assert Hex(0xf) == "f" && Hex(0xff) == "ff" && Hex(0xfff) == "fff" && Hex(0xffff) == "ffff";
    }
  }

  ghost function WordsOf(b: seq<nat>): (w: seq<nat>)
    requires |b| == 16 && forall i :: 0 <= i < 16 ==> b[i] < 256
    ensures AreWords(w) && WordBytes(w) == b
  {
    var w := seq(8, i requires 0 <= i < 8 => b[2 * i] * 256 + b[2 * i + 1]);
    BytesOfWords(b, w, 8);
    w
  }

  lemma PairOf(hi: nat, lo: nat)
    requires hi < 256 && lo < 256
    ensures Pair(hi * 256 + lo) == [hi, lo]
  {
  }

  lemma {:induction false} BytesOfWords(b: seq<nat>, w: seq<nat>, n: nat)
    requires |b| == 16 && (forall i :: 0 <= i < 16 ==> b[i] < 256) && |w| == 8 && n <= 8
    requires forall i :: 0 <= i < 8 ==> w[i] == b[2 * i] * 256 + b[2 * i + 1]
    ensures WordBytes(w[8 - n..]) == b[16 - 2 * n..]
    ensures n == 8 ==> WordBytes(w) == b
  {
    hide Pair;
    if n > 0 {
      BytesOfWords(b, w, n - 1);
      var k := 8 - n;
      assert w[k..][1..] == w[k + 1..];
      PairOf(b[2 * k], b[2 * k + 1]);
      assert b[2 * k..] == [b[2 * k], b[2 * k + 1]] + b[2 * k + 2..];
    }
    assert w[0..] == w && b[0..] == b;
  }

  /** There is one first longest run, so it does not matter which best run is meant. */
  lemma SameRun(w: seq<nat>, r: Run, s: Run)
    requires AreWords(w) && IsBest(w, r) && IsBest(w, s)
    ensures r.base == s.base && (r.base >= 0 ==> r.len == s.len) && Encapsulated(w, r) == Encapsulated(w, s)
  {
  }

  /** An address is read back from what it is written as, unless the printer takes it for an encapsulated one;
      then it never is. */
  method WriteAndRead(bytes: seq<nat>) returns (same: bool)
    requires |bytes| == 16 && forall i :: 0 <= i < 16 ==> bytes[i] < 256
    ensures exists r: Run :: IsBest(WordsOf(bytes), r) && (same <==> !Encapsulated(WordsOf(bytes), r))
    ensures forall r: Run :: IsBest(WordsOf(bytes), r) ==> (same <==> !Encapsulated(WordsOf(bytes), r))
  {
    hide Printed, Encapsulated, IsBest, Parse;
    var a := new Address(bytes);
    var text := a.ToV6();
    ghost var r: Run :| IsBest(WordsOf(bytes), r) && (r.base >= 0 ==> r.base + r.len <= 8) && text == Printed(WordsOf(bytes), r, bytes);
    RoundTrip(WordsOf(bytes), r, bytes);
    forall s: Run | IsBest(WordsOf(bytes), s) ensures Encapsulated(WordsOf(bytes), s) == Encapsulated(WordsOf(bytes), r) {
      SameRun(WordsOf(bytes), r, s);
    }
    var b := new Address(seq(16, _ => 255));
    b.isV6 := false;
    b.FromV6(text);
    same := b.isV6 && b.bytes == bytes;
  }
}
