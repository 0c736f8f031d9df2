/** IPv4 addresses in `src/address.cpp`: dotted decimal text, and its reader. */
module Ipv4 {
  import Ipv6Text

  // ---------------------------------------------------------------- text

  function Digit(d: nat): (c: char)
    requires d < 10
    ensures '0' <= c <= '9'
  {
    '0' + d as char
  }

  /** A number as an output stream writes it. */
  function Decimal(n: nat): string {
    (if n < 10 then "" else Decimal(n / 10)) + [Digit(n % 10)]
  }

  ghost predicate AreOctets(b: seq<nat>) {
    |b| == 4 && forall i :: 0 <= i < 4 ==> b[i] < 256
  }

  /** `to_v4`. */
  function Text(b: seq<nat>): string
    requires |b| == 4
  {
    Decimal(b[0]) + "." + Decimal(b[1]) + "." + Decimal(b[2]) + "." + Decimal(b[3])
  }

  lemma ExampleText()
    ensures Text([107, 234, 58, 69]) == "107.234.58.69"
  {
    hide Digit, Decimal;
    ThreeDigits(1, 0, 7);
    ThreeDigits(2, 3, 4);
    ThreeDigits(5, 8, 0);
    ThreeDigits(6, 9, 0);
    AllDigits();
    ExampleString();
  }

  lemma ExampleString()
    ensures "107" + "." + "234" + "." + "58" + "." + "69" == "107.234.58.69"
  {
  }

  lemma ThreeDigits(a: nat, b: nat, c: nat)
    requires 0 < a < 10 && b < 10 && c < 10
    ensures Decimal(10 * a + b) == [Digit(a), Digit(b)] && Decimal(10 * (10 * a + b) + c) == [Digit(a), Digit(b), Digit(c)]
  {
    hide Digit, Decimal;
    DecimalOneMore(0, a);
    DecimalOneMore(a, b);
    DecimalOneMore(10 * a + b, c);
  }

  lemma AllDigits()
    ensures Digit(0) == '0' && Digit(1) == '1' && Digit(2) == '2' && Digit(3) == '3' && Digit(4) == '4'
    ensures Digit(5) == '5' && Digit(6) == '6' && Digit(7) == '7' && Digit(8) == '8' && Digit(9) == '9'
  {
  }

  // ---------------------------------------------------------------- reading

  /** The octets that are complete, the one under way, and whether a digit of it was seen. */
  datatype State = Reading(done: seq<nat>, cur: nat, saw: bool) | Bad

  datatype Parsed = Address(bytes: seq<nat>) | Invalid

  function Octets(st: State): nat
    requires st.Reading?
  {
    |st.done| + if st.saw then 1 else 0
  }

  /** One character. */
  function Next(st: State, ch: char): State {
    if st.Bad? then Bad
    else if '0' <= ch <= '9' then
      var n := st.cur * 10 + (ch as int - '0' as int);
      if (st.saw && st.cur == 0) || n > 255 || (!st.saw && Octets(st) + 1 > 4) then Bad
      else Reading(st.done, n, true)
    else if ch == '.' && st.saw && Octets(st) != 4 then Reading(st.done + [st.cur], 0, false)
    else Bad
  }

  function Scan(s: string): State {
    if s == "" then Reading([], 0, false) else Next(Scan(s[..|s| - 1]), s[|s| - 1])
  }

  /** `from_v4`, on what `c_str()` shows of the string. */
  function Parse(s: string): Parsed {
    var st := Scan(s);
    if st.Bad? || Octets(st) < 4 then Invalid else Address(st.done + [st.cur])
  }

  // ---------------------------------------------------------------- what is read is what would be written

  /** A state that the reader can be in. */
  ghost predicate Possible(st: State) {
    && st.Reading? && |st.done| <= 3 && st.cur < 256 && (forall i :: 0 <= i < |st.done| ==> st.done[i] < 256)
    && (!st.saw ==> st.cur == 0)
  }

  /** The only text that leads there. */
  ghost function Written(st: State): string
    requires st.Reading?
  {
    Front(st.done) + if st.saw then Decimal(st.cur) else ""
  }

  ghost function Front(done: seq<nat>): string {
    if done == [] then "" else Front(done[..|done| - 1]) + Decimal(done[|done| - 1]) + "."
  }

  /** One more character is what would be written one character further. */
  lemma NextIsWritten(st: State, ch: char)
    requires Possible(st) && Next(st, ch).Reading?
    ensures Possible(Next(st, ch)) && Written(Next(st, ch)) == Written(st) + [ch]
  {
    hide Decimal;
    var st' := Next(st, ch);
    if '0' <= ch <= '9' {
      DecimalOneMore(st.cur, ch as int - '0' as int);
    } else {
      assert st'.done[..|st.done|] == st.done;
    }
  }

  lemma {:induction false} ScanIsWritten(s: string)
    requires Scan(s).Reading?
    ensures Possible(Scan(s)) && Written(Scan(s)) == s
  {
    if s != "" {
      hide Next, Possible, Written;
      var p, ch := s[..|s| - 1], s[|s| - 1];
      assert s == p + [ch];
      BadStays(ch);
      ScanIsWritten(p);
      NextIsWritten(Scan(p), ch);
    }
  }

  lemma BadStays(ch: char)
    ensures Next(Bad, ch) == Bad
  {
  }

  lemma DecimalOneMore(n: nat, d: nat)
    requires d < 10
    ensures n > 0 ==> Decimal(n * 10 + d) == Decimal(n) + [Digit(d)]
    ensures Decimal(d) == [Digit(d)]
  {
    assert (n * 10 + d) / 10 == n && (n * 10 + d) % 10 == d;
  }

  /** The state one character earlier, and that character. */
  lemma Previous(st: State) returns (before: State, ch: char)
    requires Possible(st) && (st.saw || st.done != [])
    ensures Possible(before) && Next(before, ch) == st && Written(st) == Written(before) + [ch]
    ensures |before.done| < |st.done| || (before.done == st.done && st.saw && (before.cur < st.cur || !before.saw))
  {
    hide Decimal;
    if st.saw {
      before, ch := Reading(st.done, st.cur / 10, st.cur >= 10), Digit(st.cur % 10);
      DecimalOneMore(st.cur / 10, st.cur % 10);
      assert st.cur == st.cur / 10 * 10 + st.cur % 10;
    } else {
      var n := |st.done| - 1;
      before, ch := Reading(st.done[..n], st.done[n], true), '.';
      assert st.done == st.done[..n] + [st.done[n]];
    }
  }

  lemma {:induction false} WrittenIsScanned(st: State)
    requires Possible(st)
    ensures Scan(Written(st)) == st
    decreases |st.done|, st.saw, st.cur
  {
    if st.saw || st.done != [] {
      hide Next, Possible;
      var before, ch := Previous(st);
      StepDown(before, st);
      WrittenIsScanned(before);
      assert Written(st)[..|Written(st)| - 1] == Written(before);
    }
  }

  lemma StepDown(before: State, st: State)
    requires Possible(before) && Possible(st)
    requires |before.done| < |st.done| || (before.done == st.done && st.saw && (before.cur < st.cur || !before.saw))
    ensures |before.done| < |st.done|
            || (|before.done| == |st.done| && ((st.saw && !before.saw) || (before.saw == st.saw && before.cur < st.cur)))
  {
  }

  lemma FrontOfThree(b: seq<nat>)
    requires |b| == 4
    ensures Written(Reading(b[..3], b[3], true)) == Text(b)
  {
    assert b[..3][..2] == b[..2] && b[..2][..1] == b[..1] && b[..1][..0] == [];
    assert Front(b[..1]) == Decimal(b[0]) + ".";
    assert Front(b[..2]) == Front(b[..1]) + Decimal(b[1]) + ".";
  }

  lemma WhatIsRead(s: string)
    requires Parse(s).Address?
    ensures AreOctets(Parse(s).bytes) && s == Text(Parse(s).bytes)
  {
    hide Scan, Written, Text;
    var st := Scan(s);
    ScanIsWritten(s);
    var r := st.done + [st.cur];
    assert r[..3] == st.done;
    FrontOfThree(r);
  }

  lemma WhatIsWritten(b: seq<nat>)
    requires AreOctets(b)
    ensures Parse(Text(b)) == Address(b)
  {
    hide Scan, Written, Text;
    FrontOfThree(b);
    WrittenIsScanned(Reading(b[..3], b[3], true));
    assert b == b[..3] + [b[3]];
  }

  /** The reader accepts exactly the texts that the printer writes, and reads them as what they were written for. */
  lemma ReadsExactlyWhatIsWritten(s: string, b: seq<nat>)
    ensures Parse(s) == Address(b) <==> AreOctets(b) && s == Text(b)
  {
    hide Parse, Text;
    if Parse(s).Address? { WhatIsRead(s); }
    if AreOctets(b) { WhatIsWritten(b); }
  }

  // ---------------------------------------------------------------- the object

  class Address {
    var isV4: bool
    var bytes: seq<nat>

    constructor (bytes: seq<nat>)
      ensures isV4 && this.bytes == bytes
    {
      isV4, this.bytes := true, bytes;
    }

    /** `from_v4` (lines 600 to 640): leaves the object alone unless the text is an address. */
    method FromV4(s: string)
      modifies this
      ensures var p := Parse(Ipv6Text.CString(s));
              if p.Address? then isV4 && bytes == p.bytes else isV4 == old(isV4) && bytes == old(bytes)
    {
      var tmp := new nat[4](_ => 0);
      var ok := Read(Ipv6Text.CString(s), tmp);
      if ok {
        isV4, bytes := true, tmp[..];
      }
    }
  }

  /** The loop over the characters (lines 606 to 632); true for an address, which is then in `tmp`. */
  method Read(src: string, tmp: array<nat>) returns (ok: bool)
    requires tmp.Length == 4 && tmp[0] == 0
    modifies tmp
    ensures ok == Parse(src).Address? && (ok ==> tmp[..] == Parse(src).bytes)
  {
    hide Next;
    var tp: nat, sawDigit := 0, false;
    assert tmp[..0] == [] && src[..0] == "";
    for pos := 0 to |src|
      invariant tp <= 3 && Scan(src[..pos]) == Reading(tmp[..tp], tmp[tp], sawDigit)
    {
      assert src[..pos + 1][..pos] == src[..pos];
      ok, tp, sawDigit := ReadOne(src[pos], tmp, tp, sawDigit);
      if !ok {
        BadForGood(src, pos + 1);
        return;
      }
    }
    assert src[..|src|] == src;
    ok := tp + (if sawDigit then 1 else 0) >= 4;
    if ok {
      assert tmp[..] == tmp[..3] + [tmp[3]];
    }
  }

  /** One character (lines 611 to 630). */
  method ReadOne(ch: char, tmp: array<nat>, tp0: nat, saw: bool) returns (ok: bool, tp: nat, sawDigit: bool)
    requires tmp.Length == 4 && tp0 <= 3
    modifies tmp
    ensures var st := Next(Reading(old(tmp[..tp0]), old(tmp[tp0]), saw), ch);
            ok == st.Reading? && (ok ==> tp <= 3 && st == Reading(tmp[..tp], tmp[tp], sawDigit))
  {
    hide Next;
    tp, sawDigit := tp0, saw;
    var octets := tp + if sawDigit then 1 else 0;
    Unfold(tmp[..tp], tmp[tp], sawDigit, ch);
    if '0' <= ch <= '9' {
      var newInt := tmp[tp] * 10 + (ch as int - '0' as int);
      if (sawDigit && tmp[tp] == 0) || newInt > 255 || (!sawDigit && octets + 1 > 4) {
        return false, tp, sawDigit;
      }
      tmp[tp] := newInt;
      return true, tp, true;
    } else if ch == '.' && sawDigit {
      if octets == 4 {
        return false, tp, sawDigit;
      }
      assert tmp[..tp + 1] == tmp[..tp] + [tmp[tp]];
      tmp[tp + 1] := 0;
      return true, tp + 1, false;
    } else {
      return false, tp, sawDigit;
    }
  }

  /** The three ways a character can be taken, and no other. */
  lemma Unfold(done: seq<nat>, cur: nat, saw: bool, ch: char)
    ensures ('0' <= ch <= '9' && (!saw || cur != 0) && cur * 10 + (ch as int - '0' as int) <= 255 && (saw || |done| <= 3))
            ==> Next(Reading(done, cur, saw), ch) == Reading(done, cur * 10 + (ch as int - '0' as int), true)
    ensures ch == '.' && saw && |done| != 3 ==> Next(Reading(done, cur, saw), ch) == Reading(done + [cur], 0, false)
    ensures '0' <= ch <= '9' && ((saw && cur == 0) || cur * 10 + (ch as int - '0' as int) > 255 || (!saw && |done| > 3))
            ==> Next(Reading(done, cur, saw), ch) == Bad
    ensures !('0' <= ch <= '9') && !(ch == '.' && saw && |done| != 3) ==> Next(Reading(done, cur, saw), ch) == Bad
  {
  }

  lemma {:induction false} BadForGood(s: string, n: nat)
    requires n <= |s| && Scan(s[..n]).Bad?
    ensures Scan(s).Bad?
    decreases |s|
  {
    if n == |s| {
      assert s[..n] == s;
    } else {
      var p := s[..|s| - 1];
      assert p[..n] == s[..n];
      BadForGood(p, n);
    }
  }

  lemma {:induction false} NoNul(s: string)
    requires '\0' !in s
    ensures Ipv6Text.CString(s) == s
  {
    if s != "" { NoNul(s[1..]); }
  }

  lemma {:induction false} DecimalHasNoNul(n: nat)
    ensures '\0' !in Decimal(n)
  {
    if n >= 10 { DecimalHasNoNul(n / 10); }
  }

  /** Every address is read back from what it is written as. */
  method WriteAndRead(b: seq<nat>) returns (same: bool)
    requires AreOctets(b)
    ensures same
  {
    hide Decimal;
    var text := Text(b);
    TextHasNoNul(b);
    NoNul(text);
    ReadsExactlyWhatIsWritten(text, b);
    var a := new Address([0, 0, 0, 0]);
    a.isV4 := false;
    a.FromV4(text);
    same := a.isV4 && a.bytes == b;
  }

  lemma TextHasNoNul(b: seq<nat>)
    requires |b| == 4
    ensures '\0' !in Text(b)
  {
    hide Decimal;
    DecimalHasNoNul(b[0]);
    DecimalHasNoNul(b[1]);
    DecimalHasNoNul(b[2]);
    DecimalHasNoNul(b[3]);
  }
}
