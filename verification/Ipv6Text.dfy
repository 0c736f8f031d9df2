/** The text form of IPv6 addresses in `src/address.cpp`: what the printer writes, how the parser reads it,
    and when reading undoes writing (section 4.2 of RFC 5952). */
module Ipv6Text {
  import opened Sequences

  ghost predicate AreWords(w: seq<nat>) {
    |w| == 8 && forall i :: 0 <= i < 8 ==> w[i] < 65536
  }

  // ---------------------------------------------------------------- the run of zeros to leave out

  ghost predicate IsRun(w: seq<nat>, base: nat, len: nat) {
    base + len <= |w| && forall i :: base <= i < base + len ==> w[i] == 0
  }

  datatype Run = Run(base: int, len: nat)

  /** The first of the longest runs of two or more zero words, or base -1 if there is none. */
  ghost predicate IsBest(w: seq<nat>, r: Run) {
    if r.base < 0 then r.base == -1 && forall b: nat, n: nat :: IsRun(w, b, n) ==> n < 2
    else
      && r.len >= 2 && IsRun(w, r.base, r.len)
      && forall b: nat, n: nat :: IsRun(w, b, n) ==> n <= r.len && (n == r.len ==> r.base <= b)
  }

  // ---------------------------------------------------------------- text

  function Digit(d: nat): (c: char)
    requires d < 16
  {
    "0123456789abcdef"[d]
  }

  /** Hexadecimal without leading zeros, as `std::hex` writes it. */
  function Hex(x: nat): (s: string)
    ensures s != ""
  {
    if x < 16 then [Digit(x)] else Hex(x / 16) + [Digit(x % 16)]
  }

  /** Groups with colons between them. */
  function Separated(gs: seq<string>): string {
    if gs == [] then "" else if |gs| == 1 then gs[0] else Separated(gs[..|gs| - 1]) + ":" + gs[|gs| - 1]
  }

  function Hexes(w: seq<nat>): (gs: seq<string>)
    ensures |gs| == |w|
  {
    seq(|w|, i requires 0 <= i < |w| => Hex(w[i]))
  }

  function Join(w: seq<nat>): string {
    Separated(Hexes(w))
  }

  /** The address with the run left out. */
  ghost function Text(w: seq<nat>, r: Run): string
    requires r.base >= 0 ==> r.base + r.len <= |w|
  {
    if r.base < 0 then Join(w) else Join(w[..r.base]) + "::" + Join(w[r.base + r.len..])
  }

  /** Where the printer takes the address for an encapsulated IPv4 address. */
  predicate Encapsulated(w: seq<nat>, r: Run)
    requires |w| == 8
  {
    r.base == 0 && (r.len == 6 || (r.len == 5 && w[5] == 0xffff))
  }

  // ---------------------------------------------------------------- reading

  datatype State = Reading(bytes: seq<nat>, colon: int, val: nat, saw: bool) | Bad

  datatype Parsed = Address(bytes: seq<nat>) | Invalid

  /** `tolower`. */
  function ToLower(c: char): char {
    if 'A' <= c <= 'Z' then (c as int + 32) as char else c
  }

  function DigitValue(c: char): (v: int)
    ensures -1 <= v < 16
  {
    if '0' <= c <= '9' then c as int - '0' as int else if 'a' <= c <= 'f' then c as int - 'a' as int + 10 else -1
  }

  /** A word as two bytes, the high one first. */
  function Pair(x: nat): (b: seq<nat>)
    ensures |b| == 2
  {
    [x / 256 % 256, x % 256]
  }

  /** One character; `last` says that it is the last one. */
  function Next(st: State, ch: char, last: bool): State {
    if st.Bad? then Bad
    else
      var c := ToLower(ch);
      var d := DigitValue(c);
      if d >= 0 then
        var v := st.val * 16 + d;
        if v > 0xffff then Bad else st.(val := v, saw := true)
      else if c != ':' then Bad
      else if !st.saw then (if st.colon >= 0 then Bad else st.(colon := |st.bytes|))
      else if last || |st.bytes| + 2 > 16 then Bad
      else Reading(st.bytes + Pair(st.val), st.colon, 0, false)
  }

  function Scan(s: string, st: State): State {
    if s == "" then st else Scan(s[1..], Next(st, s[0], |s| == 1))
  }

  /** The last group, and the zeros that a double colon stands for. */
  function Finish(st: State): Parsed {
    if st.Bad? || (st.saw && |st.bytes| + 2 > 16) then Invalid
    else
      var b := if st.saw then st.bytes + Pair(st.val) else st.bytes;
      if 0 <= st.colon <= |b| < 16 then Address(b[..st.colon] + Repeated<nat>(0, 16 - |b|) + b[st.colon..])
      else if st.colon >= 0 || |b| != 16 then Invalid
      else Address(b)
  }

  const Start := Reading([], -1, 0, false)

  /** The text up to a zero character; a leading colon must be a double one. */
  function Parse(s: string): Parsed {
    if s != "" && s[0] == ':' then
      if |s| < 2 || s[1] != ':' then Invalid else Finish(Scan(s[1..], Start))
    else Finish(Scan(s, Start))
  }

  function CString(s: string): (r: string)
    ensures |r| <= |s| && forall i :: 0 <= i < |r| ==> r[i] != '\0' && r[i] == s[i]
  {
    if s == "" || s[0] == '\0' then "" else [s[0]] + CString(s[1..])
  }

  // ---------------------------------------------------------------- what is an address

  ghost function WordBytes(w: seq<nat>): (b: seq<nat>)
    ensures |b| == 2 * |w|
  {
    if w == [] then [] else Pair(w[0]) + WordBytes(w[1..])
  }

  predicate IsDigit(c: char) {
    DigitValue(ToLower(c)) >= 0
  }

  function GroupValue(g: string): nat {
    if g == "" then 0
    else GroupValue(g[..|g| - 1]) * 16 + if IsDigit(g[|g| - 1]) then DigitValue(ToLower(g[|g| - 1])) else 0
  }

  /** Hexadecimal digits, as many as there are, for a number of 16 bits. */
  ghost predicate IsGroup(g: string) {
    g != "" && (forall i :: 0 <= i < |g| ==> IsDigit(g[i])) && GroupValue(g) <= 0xffff
  }

  ghost predicate AllGroups(gs: seq<string>) {
    forall i :: 0 <= i < |gs| ==> IsGroup(gs[i])
  }

  ghost function Values(gs: seq<string>): (w: seq<nat>)
    ensures |w| == |gs|
  {
    seq(|gs|, i requires 0 <= i < |gs| => GroupValue(gs[i]))
  }

  /** The ways to write an address: all of its groups, or a double colon for one or more groups of zeros. */
  datatype Notation = Full(gs: seq<string>) | Short(front: seq<string>, back: seq<string>)

  ghost predicate IsNotation(n: Notation) {
    match n
    case Full(gs) => |gs| == 8 && AllGroups(gs)
    case Short(front, back) => |front| + |back| <= 7 && AllGroups(front) && AllGroups(back)
  }

  function Spelling(n: Notation): string {
    match n
    case Full(gs) => Separated(gs)
    case Short(front, back) => Separated(front) + "::" + Separated(back)
  }

  ghost function Denoted(n: Notation): seq<nat>
    requires IsNotation(n)
  {
    match n
    case Full(gs) => WordBytes(Values(gs))
    case Short(front, back) =>
      WordBytes(Values(front)) + Repeated<nat>(0, 16 - 2 * (|front| + |back|)) + WordBytes(Values(back))
  }

  // ---------------------------------------------------------------- addresses are read

  lemma GroupOneMore(g: string, c: char)
    requires IsDigit(c)
    ensures GroupValue(g + [c]) == GroupValue(g) * 16 + DigitValue(ToLower(c))
    ensures IsGroup(g + [c]) <==> (g == "" || IsGroup(g)) && GroupValue(g) * 16 + DigitValue(ToLower(c)) <= 0xffff
  {
    var more := g + [c];
    assert more[..|more| - 1] == g && more[|more| - 1] == c;
    assert forall i :: 0 <= i < |g| ==> g[i] == more[i];
  }

  lemma {:induction false} ScanGroup(g: string, st: State, q: string)
    requires IsGroup(g) && st.Reading? && st.val == 0 && !st.saw
    ensures Scan(g + q, st) == Scan(q, st.(val := GroupValue(g), saw := true))
    decreases |g|
  {
    hide GroupValue, DigitValue, ToLower;
    var p, c := g[..|g| - 1], g[|g| - 1];
    assert g == p + [c] && IsDigit(c);
    GroupOneMore(p, c);
    var rest := [c] + q;
    assert g + q == p + rest && rest[1..] == q;
    if p == "" {
      NoValue();
      assert p + rest == rest;
    } else {
      ScanGroup(p, st, rest);
    }
  }

  lemma NoValue()
    ensures GroupValue("") == 0
  {
  }

  /** A colon closes a group. */
  lemma GroupEnds(st: State, q: string)
    requires st.Reading? && st.saw && |st.bytes| + 2 <= 16 && q != ""
    ensures Scan(":" + q, st) == Scan(q, Reading(st.bytes + Pair(st.val), st.colon, 0, false))
  {
    hide Pair;
    assert (":" + q)[1..] == q;
  }

  lemma SeparatedNext(gs: seq<string>, g: string)
    ensures Separated([]) == "" && Separated(gs + [g]) == if gs == [] then g else Separated(gs) + ":" + g
  {
    assert (gs + [g])[..|gs + [g]| - 1] == gs;
  }

  lemma ValuesNext(gs: seq<string>, g: string)
    ensures Values([]) == [] && Values(gs + [g]) == Values(gs) + [GroupValue(g)]
  {
  }

  /** The last group is closed. */
  lemma BytesNext(bytes: seq<nat>, gs: seq<string>, g: string)
    ensures bytes + WordBytes(Values(gs + [g])) == bytes + WordBytes(Values(gs)) + Pair(GroupValue(g))
  {
    hide WordBytes, Values, Pair, GroupValue;
    ValuesNext(gs, g);
    WordBytesConcat(Values(gs), [GroupValue(g)]);
    OneWord(GroupValue(g));
    Associates(bytes, WordBytes(Values(gs)), Pair(GroupValue(g)));
  }

  /** Reading groups separated by colons leaves the last one open. */
  lemma {:induction false} ScanSeparated(gs: seq<string>, g: string, st: State, q: string)
    requires AllGroups(gs) && IsGroup(g)
    requires st.Reading? && st.val == 0 && !st.saw && |st.bytes| + 2 * |gs| + 2 <= 16
    ensures Scan(Separated(gs + [g]) + q, st) == Scan(q, Reading(st.bytes + WordBytes(Values(gs)), st.colon, GroupValue(g), true))
    decreases |gs|
  {
    hide Pair, Next, Scan, Separated, WordBytes, Values, GroupValue, IsGroup;
    SeparatedNext(gs, g);
    if gs == [] {
      NoBytes();
      assert st.bytes + [] == st.bytes;
      ScanGroup(g, st, q);
    } else {
      var front, h := gs[..|gs| - 1], gs[|gs| - 1];
      assert gs == front + [h];
      var rest := ":" + (g + q);
      FourStrings(Separated(gs), ":", g, q);
      ScanSeparated(front, h, st, rest);
      GroupNotEmpty(g);
      var open := Reading(st.bytes + WordBytes(Values(front)), st.colon, GroupValue(h), true);
      BytesNext(st.bytes, front, h);
      GroupEnds(open, g + q);
      ScanGroup(g, Reading(st.bytes + WordBytes(Values(gs)), st.colon, 0, false), q);
    }
  }

  lemma GroupNotEmpty(g: string)
    requires IsGroup(g)
    ensures g != ""
  {
  }

  lemma FourStrings(a: string, b: string, c: string, d: string)
    ensures a + b + c + d == a + (b + (c + d))
  {
  }

  lemma NoBytes()
    ensures WordBytes([]) == [] && Values([]) == []
  {
  }

  lemma {:induction false} WordBytesConcat(v: seq<nat>, w: seq<nat>)
    ensures WordBytes(v + w) == WordBytes(v) + WordBytes(w)
  {
    if v == [] {
      assert v + w == w;
    } else {
      assert (v + w)[1..] == v[1..] + w;
      WordBytesConcat(v[1..], w);
    }
  }

  lemma OneWord(x: nat)
    ensures WordBytes([x]) == Pair(x)
  {
    assert [x][1..] == [];
  }

  lemma FinishOpen(bytes: seq<nat>, colon: int, x: nat)
    requires |bytes| + 2 <= 16
    ensures Finish(Reading(bytes, colon, x, true)) == Finish(Reading(bytes + Pair(x), colon, 0, false))
  {
    hide Pair, Repeated;
  }

  /** What stands at the end or behind a double colon, or nothing. */
  lemma ScanTail(gs: seq<string>, bytes: seq<nat>, colon: int)
    requires AllGroups(gs) && |bytes| + 2 * |gs| <= 16
    ensures Finish(Scan(Separated(gs), Reading(bytes, colon, 0, false))) == Finish(Reading(bytes + WordBytes(Values(gs)), colon, 0, false))
  {
    hide Finish, Pair, WordBytes, Values, GroupValue, IsGroup, Next;
    NoBytes();
    if gs == [] {
      assert bytes + [] == bytes;
    } else {
      var front, g := gs[..|gs| - 1], gs[|gs| - 1];
      assert gs == front + [g];
      ScanSeparated(front, g, Reading(bytes, colon, 0, false), "");
      assert Separated(gs) + "" == Separated(gs);
      FinishOpen(bytes + WordBytes(Values(front)), colon, GroupValue(g));
      BytesNext(bytes, front, g);
    }
  }

  /** No group starts with a colon. */
  lemma {:induction false} SeparatedStarts(gs: seq<string>)
    requires AllGroups(gs) && gs != []
    ensures Separated(gs) != "" && Separated(gs)[0] != ':'
  {
    hide GroupValue;
    if |gs| == 1 {
      assert IsDigit(gs[0][0]);
    } else {
      SeparatedStarts(gs[..|gs| - 1]);
    }
  }

  lemma DoubleColon(bytes: seq<nat>, q: string)
    ensures Scan(":" + q, Reading(bytes, -1, 0, false)) == Scan(q, Reading(bytes, |bytes|, 0, false))
  {
    assert (":" + q)[1..] == q;
  }

  /** The text up to and with a double colon, if there is something before it. */
  lemma ScanFront(gs: seq<string>, q: string)
    requires gs != [] && AllGroups(gs) && |gs| <= 7
    ensures Parse(Separated(gs) + "::" + q) == Finish(Scan(q, Reading(WordBytes(Values(gs)), 2 * |gs|, 0, false)))
  {
    hide Scan, Finish, Separated, WordBytes, Values, Pair, IsGroup, GroupValue;
    var front, g := gs[..|gs| - 1], gs[|gs| - 1];
    assert gs == front + [g];
    SeparatedStarts(gs);
    assert Separated(gs) + "::" + q == Separated(gs) + (":" + (":" + q));
    ScanSeparated(front, g, Start, ":" + (":" + q));
    BytesNext([], front, g);
    assert [] + WordBytes(Values(front)) == WordBytes(Values(front)) && [] + WordBytes(Values(gs)) == WordBytes(Values(gs));
    GroupEnds(Reading(WordBytes(Values(front)), -1, GroupValue(g), true), ":" + q);
    DoubleColon(WordBytes(Values(gs)), q);
  }

  lemma ScanBack(q: string)
    ensures Parse("::" + q) == Finish(Scan(q, Reading([], 0, 0, false)))
  {
    hide Scan, Finish;
    assert ("::" + q)[1..] == ":" + q;
    DoubleColon([], q);
  }

  lemma FinishAll(b: seq<nat>)
    requires |b| == 16
    ensures Finish(Reading(b, -1, 0, false)) == Address(b)
  {
  }

  lemma FinishGap(b: seq<nat>, c: seq<nat>)
    requires |b| + |c| < 16
    ensures Finish(Reading(b + c, |b|, 0, false)) == Address(b + Repeated<nat>(0, 16 - (|b| + |c|)) + c)
  {
    hide Repeated;
    assert (b + c)[..|b|] == b && (b + c)[|b|..] == c;
  }

  /** Every way to write an address is read. */
  lemma NotationIsRead(n: Notation)
    requires IsNotation(n)
    ensures Parse(Spelling(n)) == Address(Denoted(n))
  {
    hide Scan, Finish, Separated, WordBytes, Values, IsGroup, Repeated;
    match n
    case Full(gs) =>
      SeparatedStarts(gs);
      ScanTail(gs, [], -1);
      assert [] + WordBytes(Values(gs)) == WordBytes(Values(gs));
      FinishAll(WordBytes(Values(gs)));
    case Short(front, back) =>
      if front == [] {
        SeparatedNext([], "");
        NoBytes();
        assert Separated(front) + "::" + Separated(back) == "::" + Separated(back);
        ScanBack(Separated(back));
      } else {
        ScanFront(front, Separated(back));
      }
      ScanTail(back, WordBytes(Values(front)), 2 * |front|);
      FinishGap(WordBytes(Values(front)), WordBytes(Values(back)));
  }

  // ---------------------------------------------------------------- what is read is an address

  /** Groups with a colon behind each. */
  function Closed(gs: seq<string>): string {
    if gs == [] then "" else Separated(gs) + ":"
  }

  /** The text `p` is what leads to the state: `cur` is the group under way, and `back` is what stands behind a double
      colon. */
  ghost predicate LeadsTo(p: string, st: State, front: seq<string>, back: seq<string>, cur: string) {
    && st.Reading? && AllGroups(front) && AllGroups(back) && (cur == "" || IsGroup(cur))
    && st.saw == (cur != "") && st.val == GroupValue(cur) && st.bytes == WordBytes(Values(front + back))
    && if st.colon < 0 then st.colon == -1 && back == [] && p == Closed(front) + cur
       else st.colon == 2 * |front| && p == Closed(front) + ":" + Closed(back) + cur
  }

  lemma ClosedNext(gs: seq<string>, g: string)
    ensures Closed(gs + [g]) == Closed(gs) + g + ":" && Separated(gs + [g]) == Closed(gs) + g && Closed([]) == ""
  {
    hide Separated;
    SeparatedNext(gs, g);
  }

  lemma DigitLeads(p: string, st: State, front: seq<string>, back: seq<string>, cur: string, ch: char)
    requires LeadsTo(p, st, front, back, cur) && IsDigit(ch) && st.val * 16 + DigitValue(ToLower(ch)) <= 0xffff
    ensures LeadsTo(p + [ch], st.(val := st.val * 16 + DigitValue(ToLower(ch)), saw := true), front, back, cur + [ch])
  {
    hide IsGroup, GroupValue, WordBytes, Values, Closed, IsDigit, ToLower;
    GroupOneMore(cur, ch);
    Associates(if st.colon < 0 then Closed(front) else Closed(front) + ":" + Closed(back), cur, [ch]);
  }

  lemma ColonLeads(p: string, st: State, front: seq<string>, back: seq<string>, cur: string)
    requires LeadsTo(p, st, front, back, cur) && st.colon < 0 && !st.saw
    ensures LeadsTo(p + ":", st.(colon := |st.bytes|), front, back, cur)
  {
    hide IsGroup, GroupValue, WordBytes, Values, Separated;
  }

  lemma CloseLeads(p: string, st: State, front: seq<string>, back: seq<string>, cur: string) returns (f: seq<string>, b: seq<string>)
    requires LeadsTo(p, st, front, back, cur) && st.saw
    ensures LeadsTo(p + ":", Reading(st.bytes + Pair(st.val), st.colon, 0, false), f, b, "")
  {
    hide IsGroup, GroupValue, WordBytes, Values, Closed, Pair;
    BytesNext([], front + back, cur);
    assert [] + WordBytes(Values(front + back)) == st.bytes;
    NoValue();
    f, b := if st.colon < 0 then front + [cur] else front, if st.colon < 0 then [] else back + [cur];
    assert f + b == front + back + [cur];
    assert [] + WordBytes(Values(f + b)) == WordBytes(Values(f + b));
    ClosedNext(front, cur);
    ClosedNext(back, cur);
    if st.colon >= 0 { FourStrings(Closed(front) + ":", Closed(back), cur, ":"); }
  }

  /** One character more. */
  lemma NextLeads(p: string, st: State, front: seq<string>, back: seq<string>, cur: string, ch: char, last: bool)
    returns (f: seq<string>, b: seq<string>, c: string)
    requires LeadsTo(p, st, front, back, cur) && Next(st, ch, last).Reading?
    ensures LeadsTo(p + [ch], Next(st, ch, last), f, b, c)
    ensures last ==> Next(st, ch, last).saw || Next(st, ch, last).colon == |st.bytes| == |Next(st, ch, last).bytes|
  {
    hide LeadsTo, Pair, DigitValue;
    f, b, c := front, back, cur;
    if IsDigit(ch) {
      c := cur + [ch];
      DigitLeads(p, st, front, back, cur, ch);
    } else {
      OnlyColon(ch);
      if st.saw {
        f, b := CloseLeads(p, st, front, back, cur);
        c := "";
      } else {
        ColonLeads(p, st, front, back, cur);
      }
    }
  }

  lemma OnlyColon(ch: char)
    requires ToLower(ch) == ':'
    ensures ch == ':'
  {
  }

  lemma {:induction false} ScanLeads(s: string, p: string, st: State, front: seq<string>, back: seq<string>, cur: string)
    returns (f: seq<string>, b: seq<string>, c: string)
    requires LeadsTo(p, st, front, back, cur) && Scan(s, st).Reading?
    ensures LeadsTo(p + s, Scan(s, st), f, b, c)
    ensures s != "" ==> Scan(s, st).saw || Scan(s, st).colon == |Scan(s, st).bytes|
    decreases |s|
  {
    hide LeadsTo, Next;
    if s == "" {
      f, b, c := front, back, cur;
      assert p + s == p;
    } else {
      BadStays(s[1..]);
      f, b, c := NextLeads(p, st, front, back, cur, s[0], |s| == 1);
      assert p + [s[0]] + s[1..] == p + s;
      f, b, c := ScanLeads(s[1..], p + [s[0]], Next(st, s[0], |s| == 1), f, b, c);
    }
  }

  lemma StartLeads()
    ensures LeadsTo("", Start, [], [], "")
  {
    var none: seq<string> := [];
    assert none + none == none;
    NoBytes();
  }

  /** What is read without its first colon, if it has one. */
  function Body(s: string): string {
    if s != "" && s[0] == ':' then s[1..] else s
  }

  lemma ParseIs(s: string)
    requires Parse(s).Address?
    ensures Parse(s) == Finish(Scan(Body(s), Start)) && Scan(Body(s), Start).Reading? && Body(s) != ""
    ensures s == Body(s) || (s == ":" + Body(s) && Body(s)[0] == ':')
    ensures Body(s)[0] == ':' ==> s == ":" + Body(s)
  {
    BadFinish();
  }

  /** With groups in front there was no colon to leave out. */
  lemma WholeFull(s: string, gs: seq<string>)
    requires AllGroups(gs) && gs != [] && Body(s) == Separated(gs)
    requires s == Body(s) || (s == ":" + Body(s) && Body(s) != "" && Body(s)[0] == ':')
    ensures s == Separated(gs)
  {
    hide Separated, IsGroup;
    SeparatedStarts(gs);
  }

  lemma WholeShort(s: string, f: seq<string>, back: string)
    requires AllGroups(f) && Body(s) == (if f == [] then ":" else Separated(f) + "::") + back
    requires s == Body(s) || (s == ":" + Body(s) && Body(s) != "" && Body(s)[0] == ':')
    requires Body(s) != "" && Body(s)[0] == ':' ==> s == ":" + Body(s)
    ensures s == Separated(f) + "::" + back
  {
    hide Separated, IsGroup, Body;
    SeparatedNext([], "");
    if f == [] {
      assert ":" + (":" + back) == "" + "::" + back;
    } else {
      SeparatedStarts(f);
    }
  }

  /** The groups of a text that is read. */
  lemma NotationOf(s: string) returns (n: Notation)
    requires Parse(s).Address?
    ensures IsNotation(n) && s == Spelling(n) && Parse(s).bytes == Denoted(n)
  {
    hide Parse, Scan, Finish, LeadsTo, Body, IsNotation, Spelling, Denoted;
    ParseIs(s);
    StartLeads();
    var f, b, cur := ScanLeads(Body(s), "", Start, [], [], "");
    assert "" + Body(s) == Body(s);
    if Scan(Body(s), Start).colon < 0 {
      n := FullOf(s, Scan(Body(s), Start), f, b, cur);
    } else {
      n := ShortOf(s, Scan(Body(s), Start), f, b, cur);
    }
  }

  lemma FullOf(s: string, st: State, f: seq<string>, b: seq<string>, cur: string) returns (n: Notation)
    requires LeadsTo(Body(s), st, f, b, cur) && Finish(st).Address? && st.colon < 0 && (st.saw || st.colon == |st.bytes|)
    requires s == Body(s) || (s == ":" + Body(s) && Body(s) != "" && Body(s)[0] == ':')
    ensures IsNotation(n) && s == Spelling(n) && Finish(st).bytes == Denoted(n)
  {
    hide Finish, Closed, Separated, WordBytes, Values, IsGroup, GroupValue, Repeated, Pair, Body;
    ReadingEnds(st);
    n := Full(f + [cur]);
    FullIs(Body(s), st, f, cur);
    WholeFull(s, f + [cur]);
  }

  lemma ShortOf(s: string, st: State, f: seq<string>, b: seq<string>, cur: string) returns (n: Notation)
    requires LeadsTo(Body(s), st, f, b, cur) && Finish(st).Address? && st.colon >= 0 && (st.saw || st.colon == |st.bytes|)
    requires s == Body(s) || (s == ":" + Body(s) && Body(s) != "" && Body(s)[0] == ':')
    requires Body(s) != "" && Body(s)[0] == ':' ==> s == ":" + Body(s)
    ensures IsNotation(n) && s == Spelling(n) && Finish(st).bytes == Denoted(n)
  {
    hide Finish, Closed, Separated, WordBytes, Values, IsGroup, GroupValue, Repeated, Pair, Body;
    ReadingEnds(st);
    var back := if st.saw then b + [cur] else b;
    var all := if st.saw then st.bytes + Pair(st.val) else st.bytes;
    n := Short(f, back);
    ShortIs(Body(s), st, f, b, cur, back);
    WholeShort(s, f, Separated(back));
    GapIs(all, WordBytes(Values(f)), WordBytes(Values(back)), Repeated<nat>(0, 16 - |all|));
  }

  /** Reading ends with an address if there are 16 bytes, or fewer with a double colon. */
  lemma ReadingEnds(st: State)
    requires st.Reading? && Finish(st).Address? && st.colon >= -1
    ensures var b := if st.saw then st.bytes + Pair(st.val) else st.bytes;
            if st.colon < 0 then |b| == 16 && Finish(st) == Address(b)
            else st.colon <= |b| < 16 && Finish(st) == Address(b[..st.colon] + Repeated<nat>(0, 16 - |b|) + b[st.colon..])
  {
    hide Pair, Repeated;
  }

  lemma FullIs(p: string, st: State, f: seq<string>, cur: string)
    requires LeadsTo(p, st, f, [], cur) && st.colon < 0 && st.saw && |st.bytes| == 14
    ensures IsNotation(Full(f + [cur])) && p == Separated(f + [cur]) && st.bytes + Pair(st.val) == Denoted(Full(f + [cur]))
  {
    hide Closed, Separated, WordBytes, Values, IsGroup, GroupValue, Pair;
    assert f + [] == f;
    ClosedNext(f, cur);
    BytesNext([], f, cur);
    assert [] + WordBytes(Values(f)) == st.bytes && [] + WordBytes(Values(f + [cur])) == WordBytes(Values(f + [cur]));
  }

  lemma ShortText(f: seq<string>, b: seq<string>, cur: string)
    requires cur != "" || b == []
    ensures Closed(f) + ":" + Closed(b) + cur == Closed(f) + ":" + Separated(if cur != "" then b + [cur] else b)
    ensures Closed(f) + ":" == if f == [] then ":" else Separated(f) + "::"
  {
    hide Separated;
    ClosedNext(b, cur);
    SeparatedNext([], "");
    if f != [] { assert Separated(f) + ":" + ":" == Separated(f) + "::"; }
    if cur != "" { Associates(Closed(f) + ":", Closed(b), cur); }
  }

  lemma ShortBytes(f: seq<string>, b: seq<string>, cur: string, bytes: seq<nat>)
    requires bytes == WordBytes(Values(f + b))
    ensures bytes == WordBytes(Values(f)) + WordBytes(Values(b))
    ensures bytes + Pair(GroupValue(cur)) == WordBytes(Values(f)) + WordBytes(Values(b + [cur]))
  {
    hide WordBytes, Values, GroupValue, Pair;
    BothValues(f, b);
    BytesNext(WordBytes(Values(f)), b, cur);
  }

  lemma ShortIs(p: string, st: State, f: seq<string>, b: seq<string>, cur: string, back: seq<string>)
    requires LeadsTo(p, st, f, b, cur) && st.colon >= 0 && back == if st.saw then b + [cur] else b
    requires st.saw || b == []
    ensures AllGroups(f) && AllGroups(back) && p == (if f == [] then ":" else Separated(f) + "::") + Separated(back)
    ensures st.colon == 2 * |f| && (if st.saw then st.bytes + Pair(st.val) else st.bytes) == WordBytes(Values(f)) + WordBytes(Values(back))
  {
    hide Closed, Separated, WordBytes, Values, IsGroup, GroupValue, Pair;
    ShortText(f, b, cur);
    ShortBytes(f, b, cur, st.bytes);
  }

  lemma GapIs(all: seq<nat>, x: seq<nat>, y: seq<nat>, gap: seq<nat>)
    requires all == x + y
    ensures all[..|x|] + gap + all[|x|..] == x + gap + y
  {
    assert all[..|x|] == x && all[|x|..] == y;
  }

  lemma BothValues(f: seq<string>, b: seq<string>)
    ensures WordBytes(Values(f + b)) == WordBytes(Values(f)) + WordBytes(Values(b))
  {
    hide WordBytes, GroupValue;
    assert Values(f + b) == Values(f) + Values(b);
    WordBytesConcat(Values(f), Values(b));
  }

  /** The texts that are read as an address are exactly the ways to write it. */
  lemma ReadsExactlyNotations(s: string, b: seq<nat>)
    ensures Parse(s) == Address(b) <==> exists n: Notation :: IsNotation(n) && s == Spelling(n) && b == Denoted(n)
  {
    hide Parse, IsNotation, Spelling, Denoted;
    if Parse(s) == Address(b) {
      var n := NotationOf(s);
    }
    if n: Notation :| IsNotation(n) && s == Spelling(n) && b == Denoted(n) {
      NotationIsRead(n);
    }
  }

  // ---------------------------------------------------------------- reading what was written

  lemma DigitIsRead(d: nat)
    requires d < 16
    ensures DigitValue(ToLower(Digit(d))) == d
  {
  }

  lemma {:induction false} HexIsGroup(x: nat)
    requires x <= 0xffff
    ensures IsGroup(Hex(x)) && GroupValue(Hex(x)) == x
  {
    hide DigitValue, ToLower, Digit, IsGroup, GroupValue;
    NoValue();
    if x < 16 {
      DigitIsRead(x);
      assert Hex(x) == "" + [Digit(x)];
      GroupOneMore("", Digit(x));
    } else {
      HexIsGroup(x / 16);
      DigitIsRead(x % 16);
      GroupOneMore(Hex(x / 16), Digit(x % 16));
    }
  }

  lemma HexesAreGroups(w: seq<nat>)
    requires forall i :: 0 <= i < |w| ==> w[i] <= 0xffff
    ensures AllGroups(Hexes(w)) && Values(Hexes(w)) == w
  {
    hide IsGroup, GroupValue, Hex;
    forall i | 0 <= i < |w| ensures IsGroup(Hexes(w)[i]) && GroupValue(Hexes(w)[i]) == w[i] {
      HexIsGroup(w[i]);
    }
  }

  ghost predicate NoNul(s: string) {
    forall i :: 0 <= i < |s| ==> s[i] != '\0'
  }

  lemma {:induction false} WholeString(s: string)
    requires NoNul(s)
    ensures CString(s) == s
  {
    if s != "" {
      WholeString(s[1..]);
    }
  }

  lemma {:induction false} GroupsHaveNoNul(gs: seq<string>)
    requires AllGroups(gs)
    ensures NoNul(Separated(gs))
  {
    hide GroupValue;
    if gs != [] {
      GroupsHaveNoNul(gs[..|gs| - 1]);
      var g := gs[|gs| - 1];
      forall i | 0 <= i < |g| ensures g[i] != '\0' {
        assert IsDigit(g[i]);
      }
    }
  }

  /** The zeros that are left out. */
  lemma {:induction false} ZeroWords(w: seq<nat>)
    requires forall i :: 0 <= i < |w| ==> w[i] == 0
    ensures WordBytes(w) == Repeated<nat>(0, 2 * |w|)
  {
    if w != [] {
      ZeroWords(w[1..]);
      assert Repeated<nat>(0, 2 * |w|) == [0, 0] + Repeated<nat>(0, 2 * |w| - 2);
    }
  }

  /** What the printer writes is a way to write the address. */
  lemma TextIsNotation(w: seq<nat>, r: Run) returns (n: Notation)
    requires AreWords(w) && IsBest(w, r)
    ensures IsNotation(n) && Text(w, r) == Spelling(n) && Denoted(n) == WordBytes(w) && NoNul(Text(w, r))
    ensures n == if r.base < 0 then Full(Hexes(w)) else Short(Hexes(w[..r.base]), Hexes(w[r.base + r.len..]))
  {
    hide Separated, WordBytes, Values, IsGroup, Hexes, Repeated;
    if r.base < 0 {
      HexesAreGroups(w);
      GroupsHaveNoNul(Hexes(w));
      n := Full(Hexes(w));
    } else {
      var l, m, t := w[..r.base], w[r.base..r.base + r.len], w[r.base + r.len..];
      HexesAreGroups(l);
      HexesAreGroups(t);
      GroupsHaveNoNul(Hexes(l));
      GroupsHaveNoNul(Hexes(t));
      n := Short(Hexes(l), Hexes(t));
      assert w == l + (m + t);
      WordBytesConcat(l, m + t);
      WordBytesConcat(m, t);
      ZeroWords(m);
      Associates(WordBytes(l), Repeated<nat>(0, 2 * r.len), WordBytes(t));
    }
  }

  lemma TextIsRead(w: seq<nat>, r: Run)
    requires AreWords(w) && IsBest(w, r)
    ensures Parse(Text(w, r)) == Address(WordBytes(w)) && NoNul(Text(w, r))
  {
    hide Parse, Text, IsNotation, Spelling, Denoted, WordBytes, IsBest, NoNul;
    var n := TextIsNotation(w, r);
    NotationIsRead(n);
  }

  // ---------------------------------------------------------------- the form that section 4 of RFC 5952 asks for

  predicate IsSmallDigit(c: char) {
    '0' <= c <= '9' || 'a' <= c <= 'f'
  }

  /** Small letters, and no zero in front of another digit. */
  ghost predicate IsCanonical(g: string) {
    g != "" && (forall i :: 0 <= i < |g| ==> IsSmallDigit(g[i])) && (|g| > 1 ==> g[0] != '0')
  }

  lemma CanonicalFront(g: string)
    requires IsCanonical(g) && |g| > 1
    ensures IsCanonical(g[..|g| - 1]) && g[..|g| - 1] != "0"
    ensures IsDigit(g[|g| - 1]) && IsSmallDigit(g[|g| - 1])
  {
    var p := g[..|g| - 1];
    assert forall i :: 0 <= i < |p| ==> p[i] == g[i];
  }

  lemma DigitIsSmall(d: nat)
    requires d < 16
    ensures IsSmallDigit(Digit(d)) && (Digit(d) == '0' <==> d == 0)
  {
  }

  lemma SmallIsDigit(c: char)
    requires IsSmallDigit(c)
    ensures IsDigit(c) && Digit(DigitValue(ToLower(c))) == c && (c == '0' <==> DigitValue(ToLower(c)) == 0)
  {
  }

  /** The only canonical way to write a number is the one that is printed. */
  lemma {:induction false} HexIsCanonical(x: nat, g: string)
    ensures g == Hex(x) <==> IsCanonical(g) && GroupValue(g) == x
  {
    hide Digit, DigitValue, ToLower, IsCanonical, IsSmallDigit, GroupValue, IsDigit;
    PrintedIsCanonical(x);
    if IsCanonical(g) && GroupValue(g) == x { CanonicalIsPrinted(g); }
  }

  lemma {:induction false} PrintedIsCanonical(x: nat)
    ensures IsCanonical(Hex(x)) && GroupValue(Hex(x)) == x && (Hex(x)[0] == '0' <==> x == 0)
  {
    hide Digit, DigitValue, ToLower, GroupValue, IsDigit, IsSmallDigit;
    NoValue();
    DigitIsSmall(x % 16);
    SmallIsDigit(Digit(x % 16));
    DigitIsRead(x % 16);
    if x < 16 {
      assert Hex(x) == "" + [Digit(x)];
      GroupOneMore("", Digit(x));
    } else {
      PrintedIsCanonical(x / 16);
      GroupOneMore(Hex(x / 16), Digit(x % 16));
    }
  }

  lemma {:induction false} CanonicalIsPrinted(g: string)
    requires IsCanonical(g)
    ensures g == Hex(GroupValue(g)) && (GroupValue(g) == 0 <==> g == "0")
  {
    hide Digit, DigitValue, ToLower, GroupValue, IsDigit, IsSmallDigit;
    var p, c := g[..|g| - 1], g[|g| - 1];
    assert g == p + [c];
    SmallIsDigit(c);
    GroupOneMore(p, c);
    if |g| == 1 {
      NoValue();
      assert p == "" && g == [c];
    } else {
      CanonicalFront(g);
      CanonicalIsPrinted(p);
    }
  }

  ghost predicate AllCanonical(gs: seq<string>) {
    forall i :: 0 <= i < |gs| ==> IsCanonical(gs[i])
  }

  /** A colon, a digit or a small letter. */
  predicate IsPrinted(c: char) { c == ':' || IsSmallDigit(c) }

  lemma {:induction false} SeparatedIsPrinted(gs: seq<string>)
    requires AllCanonical(gs)
    ensures forall i :: 0 <= i < |Separated(gs)| ==> IsPrinted(Separated(gs)[i])
  {
    if gs != [] { SeparatedIsPrinted(gs[..|gs| - 1]); }
  }

  lemma HexesAreCanonical(w: seq<nat>)
    ensures AllCanonical(Hexes(w))
  {
    hide IsCanonical, Hex;
    forall i | 0 <= i < |w| ensures IsCanonical(Hexes(w)[i]) {
      HexIsCanonical(w[i], Hex(w[i]));
    }
  }

  /** What the printer writes has small letters, no zeros in front, and nothing but digits and colons. */
  lemma TextIsCanonical(w: seq<nat>, r: Run) returns (n: Notation)
    requires AreWords(w) && IsBest(w, r)
    ensures IsNotation(n) && Text(w, r) == Spelling(n) && Denoted(n) == WordBytes(w)
    ensures match n case Full(gs) => AllCanonical(gs) case Short(front, back) => AllCanonical(front) && AllCanonical(back)
    ensures forall i :: 0 <= i < |Text(w, r)| ==> IsPrinted(Text(w, r)[i])
  {
    hide Separated, WordBytes, Values, IsGroup, IsCanonical, IsPrinted, IsBest;
    n := TextIsNotation(w, r);
    match n
    case Full(gs) =>
      HexesAreCanonical(w);
      SeparatedIsPrinted(gs);
    case Short(front, back) =>
      BestFits(w, r);
      HexesAreCanonical(w[..r.base]);
      HexesAreCanonical(w[r.base + r.len..]);
      SeparatedIsPrinted(front);
      SeparatedIsPrinted(back);
      ColonIsPrinted();
  }

  lemma ColonIsPrinted()
    ensures IsPrinted(':')
  {
  }

  /** An address of section 2.2 of RFC 4291 that uses every digit. */
  lemma FullExample()
    ensures Text([0xabcd, 0xef01, 0x2345, 0x6789, 0xabcd, 0xef01, 0x2345, 0x6789], Run(-1, 0)) == "abcd:ef01:2345:6789:abcd:ef01:2345:6789"
  {
    hide Hex, Separated;
    var w := [0xabcd, 0xef01, 0x2345, 0x6789, 0xabcd, 0xef01, 0x2345, 0x6789];
    LongGroups();
    assert Hexes(w) == ["abcd", "ef01", "2345", "6789"] + ["abcd", "ef01", "2345", "6789"];
    EightGroups("abcd", "ef01", "2345", "6789", "abcd", "ef01", "2345", "6789");
    FullString();
  }

  lemma FullString()
    ensures "abcd" + ":" + "ef01" + ":" + "2345" + ":" + "6789" + ":" + "abcd" + ":" + "ef01" + ":" + "2345" + ":" + "6789"
         == "abcd:ef01:2345:6789:abcd:ef01:2345:6789"
  {
  }

  /** Another one, with its run of zeros left out. */
  lemma ShortExample()
    ensures Text([0x2001, 0xdb8, 0, 0, 8, 0x800, 0x200c, 0x417a], Run(2, 2)) == "2001:db8::8:800:200c:417a"
  {
    hide Hex, Separated;
    var w := [0x2001, 0xdb8, 0, 0, 8, 0x800, 0x200c, 0x417a];
    ShortGroups();
    assert Hexes(w[..2]) == ["2001", "db8"];
    assert Hexes(w[4..]) == ["8", "800", "200c", "417a"];
    FourGroups("2001", "db8", "", "");
    FourGroups("8", "800", "200c", "417a");
    ShortString();
  }

  lemma ShortString()
    ensures "2001" + ":" + "db8" + "::" + ("8" + ":" + "800" + ":" + "200c" + ":" + "417a") == "2001:db8::8:800:200c:417a"
  {
  }

  lemma FourGroups(a: string, b: string, c: string, d: string)
    ensures Separated([a, b]) == a + ":" + b && Separated([a, b, c, d]) == a + ":" + b + ":" + c + ":" + d
  {
    hide Separated;
    SeparatedNext([], a);
    SeparatedNext([a], b);
    SeparatedNext([a, b], c);
    SeparatedNext([a, b, c], d);
    assert [] + [a] == [a] && [a] + [b] == [a, b] && [a, b] + [c] == [a, b, c] && [a, b, c] + [d] == [a, b, c, d];
  }

  lemma EightGroups(a: string, b: string, c: string, d: string, e: string, f: string, g: string, h: string)
    ensures Separated([a, b, c, d] + [e, f, g, h]) == a + ":" + b + ":" + c + ":" + d + ":" + e + ":" + f + ":" + g + ":" + h
  {
    hide Separated;
    var four := [a, b, c, d];
    FourGroups(a, b, c, d);
    SeparatedNext(four, e);
    SeparatedNext(four + [e], f);
    SeparatedNext(four + [e] + [f], g);
    SeparatedNext(four + [e] + [f] + [g], h);
    assert four + [e] + [f] + [g] + [h] == four + [e, f, g, h];
  }

  lemma LongGroups()
    ensures Hex(0xabcd) == "abcd" && Hex(0xef01) == "ef01" && Hex(0x2345) == "2345" && Hex(0x6789) == "6789"
  {
    hide Hex;
    HexDigits(0xa, 0xb, 0xc, 0xd);
    HexDigits(0xe, 0xf, 0x0, 0x1);
    HexDigits(0x2, 0x3, 0x4, 0x5);
    HexDigits(0x6, 0x7, 0x8, 0x9);
  }

  lemma ShortGroups()
    ensures Hex(0x2001) == "2001" && Hex(0xdb8) == "db8" && Hex(8) == "8" && Hex(0x800) == "800" && Hex(0x200c) == "200c" && Hex(0x417a) == "417a"
  {
    hide Hex;
    HexDigits(0x2, 0x0, 0x0, 0x1);
    HexDigits(0xd, 0xb, 0x8, 0x0);
    HexDigits(0x8, 0x0, 0x0, 0x0);
    HexDigits(0x2, 0x0, 0x0, 0xc);
    HexDigits(0x4, 0x1, 0x7, 0xa);
  }

  lemma HexDigits(a: nat, b: nat, c: nat, d: nat)
    requires 0 < a < 16 && b < 16 && c < 16 && d < 16
    ensures Hex(a) == [Digit(a)] && Hex(16 * (16 * a + b) + c) == [Digit(a), Digit(b), Digit(c)]
    ensures Hex(16 * (16 * (16 * a + b) + c) + d) == [Digit(a), Digit(b), Digit(c), Digit(d)]
  {
    hide Digit;
    OneDigitMore(a, b);
    OneDigitMore(16 * a + b, c);
    OneDigitMore(16 * (16 * a + b) + c, d);
  }

  lemma OneDigitMore(n: nat, d: nat)
    requires n > 0 && d < 16
    ensures Hex(16 * n + d) == Hex(n) + [Digit(d)]
  {
  }

  // ---------------------------------------------------------------- the encapsulated form

  /** The bytes 15 to 12 as characters, with dots (lines 534 to 539). */
  function Dotted(b: seq<nat>): string
    requires |b| == 16 && forall i :: 0 <= i < 16 ==> b[i] < 256
  {
    [b[15] as char, '.', b[14] as char, b[13] as char, '.', b[12] as char]
  }

  /** What the printer writes. */
  ghost function Printed(w: seq<nat>, r: Run, b: seq<nat>): string
    requires |w| == 8 && (r.base >= 0 ==> r.base + r.len <= 8) && |b| == 16 && forall i :: 0 <= i < 16 ==> b[i] < 256
  {
    if Encapsulated(w, r) then "::" + (if r.len == 5 then "ffff:" else "") + Dotted(b) else Text(w, r)
  }

  /** Which addresses these are: five zero words, and then 0xffff, or one more with something other than zero behind it. */
  lemma EncapsulatedExactly(w: seq<nat>, r: Run)
    requires AreWords(w) && IsBest(w, r)
    ensures Encapsulated(w, r)
       <==> (forall i :: 0 <= i < 5 ==> w[i] == 0) && (w[5] == 0xffff || (w[5] == 0 && w[6] != 0))
  {
    if Encapsulated(w, r) {
      assert forall i :: 0 <= i < r.len ==> w[i] == 0;
      if r.len == 6 && w[6] == 0 { assert IsRun(w, 0, 7); }
    }
    if (forall i :: 0 <= i < 5 ==> w[i] == 0) && (w[5] == 0xffff || (w[5] == 0 && w[6] != 0)) {
      var n := if w[5] == 0 then 6 else 5;
      assert IsRun(w, 0, n);
      NoOtherRun(w, r, n);
    }
  }

  /** Where a run of five or more words from the first one on ends, nothing longer can start. */
  lemma NoOtherRun(w: seq<nat>, r: Run, n: nat)
    requires AreWords(w) && IsBest(w, r) && 5 <= n <= 6 && IsRun(w, 0, n) && w[n] != 0
    ensures r == Run(0, n)
  {
    assert r.base >= 0 && n <= r.len && IsRun(w, r.base, r.len);
    assert r.base > n || r.base + r.len <= n;
  }

  /** The bytes 65 to 68 behind the mark, which are the letters from A to D. */
  lemma EncapsulatedExample(b: seq<nat>)
    requires |b| == 16 && (forall i :: 0 <= i < 16 ==> b[i] < 256) && b[12..] == [65, 66, 67, 68]
    ensures Printed([0, 0, 0, 0, 0, 0xffff, 0x4142, 0x4344], Run(0, 5), b) == "::ffff:D.CB.A"
  {
    assert b[12] == b[12..][0] && b[13] == b[12..][1] && b[14] == b[12..][2] && b[15] == b[12..][3];
  }

  lemma {:induction false} BadStays(s: string)
    ensures Scan(s, Bad) == Bad
  {
    if s != "" { BadStays(s[1..]); }
  }

  lemma {:induction false} DotIsBad(p: string, q: string, st: State)
    ensures Scan(p + "." + q, st) == Bad
    decreases |p|
  {
    var s := p + "." + q;
    if p == "" {
      assert s[0] == '.';
      BadStays(s[1..]);
    } else {
      assert s[1..] == p[1..] + "." + q;
      DotIsBad(p[1..], q, Next(st, s[0], |s| == 1));
    }
  }

  lemma CutAtNul(p: string, q: string)
    requires NoNul(p)
    ensures CString(p + "\0" + q) == p
    decreases |p|
  {
    var s := p + "\0" + q;
    if p == "" {
      assert s[0] == '\0';
    } else {
      assert s[1..] == p[1..] + "\0" + q;
      CutAtNul(p[1..], q);
    }
  }

  lemma {:induction false} KeptUpTo(p: string, q: string)
    requires NoNul(p)
    ensures CString(p + q) == p + CString(q)
    decreases |p|
  {
    if p == "" {
      assert p + q == q;
    } else {
      assert (p + q)[1..] == p[1..] + q;
      KeptUpTo(p[1..], q);
    }
  }

  /** The encapsulated form is never read back: what stands before the dot is cut off, or the dot is refused. */
  lemma EncapsulatedIsNotRead(w: seq<nat>, r: Run, b: seq<nat>)
    requires AreWords(w) && IsBest(w, r) && Encapsulated(w, r)
    requires |b| == 16 && (forall i :: 0 <= i < 16 ==> b[i] < 256) && b == WordBytes(w)
    ensures Parse(CString(Printed(w, r, b))) != Address(b)
  {
    hide Parse, IsBest, WordBytes, CString;
    if b[15] == 0 {
      CutAtZero(w, r, b);
      if r.len == 5 {
        FrontFive();
      } else {
        FrontSix(w, r);
      }
    } else {
      StopsAtDot(w, r, b);
    }
  }

  lemma CutAtZero(w: seq<nat>, r: Run, b: seq<nat>)
    requires |w| == 8 && Encapsulated(w, r) && |b| == 16 && (forall i :: 0 <= i < 16 ==> b[i] < 256) && b[15] == 0
    ensures CString(Printed(w, r, b)) == if r.len == 5 then "::ffff:" else "::"
  {
    hide CString;
    var front := if r.len == 5 then "::ffff:" else "::";
    var rest := ['.', b[14] as char, b[13] as char, '.', b[12] as char];
    CutAtNul(front, rest);
    assert Printed(w, r, b) == front + "\0" + rest;
  }

  lemma StopsAtDot(w: seq<nat>, r: Run, b: seq<nat>)
    requires |w| == 8 && Encapsulated(w, r) && |b| == 16 && (forall i :: 0 <= i < 16 ==> b[i] < 256) && b[15] != 0
    ensures Parse(CString(Printed(w, r, b))) == Invalid
  {
    hide Scan, Finish, CString;
    var rest := [b[14] as char, b[13] as char, '.', b[12] as char];
    var p := (if r.len == 5 then "::ffff:" else "::") + [b[15] as char];
    assert Printed(w, r, b) == (p + ".") + rest;
    KeptUpTo(p + ".", rest);
    var s := CString(Printed(w, r, b));
    assert s[1..] == p[1..] + "." + CString(rest);
    DotIsBad(p[1..], CString(rest), Start);
    BadFinish();
  }

  lemma BadFinish()
    ensures Finish(Bad) == Invalid
  {
  }

  lemma FrontFive()
    ensures Parse("::ffff:") == Invalid
  {
    hide GroupValue, IsGroup;
    assert "::ffff:" == "::" + ("ffff" + ":");
    ScanBack("ffff" + ":");
    HexIsGroup(0xffff);
    assert Hex(0xffff) == "ffff" by {
      assert Hex(0xf) == "f" && Hex(0xff) == "ff" && Hex(0xfff) == "fff";
    }
    ScanGroup("ffff", Reading([], 0, 0, false), ":");
    assert ":"[1..] == "";
  }

  lemma FrontSix(w: seq<nat>, r: Run)
    requires AreWords(w) && IsBest(w, r) && r == Run(0, 6)
    ensures Parse("::") != Address(WordBytes(w))
  {
    hide WordBytes;
    assert "::"[1..] == ":" + "";
    DoubleColon([], "");
    assert Parse("::") == Address(Repeated<nat>(0, 16)) by { assert [] + Repeated<nat>(0, 16) + [] == Repeated<nat>(0, 16); }
    assert !IsRun(w, 0, 7);
    assert w[6] != 0;
    assert w == w[..6] + w[6..];
    WordBytesConcat(w[..6], w[6..]);
    SeventhWord(w[6..]);
    assert WordBytes(w)[12] == WordBytes(w[6..])[0] && WordBytes(w)[13] == WordBytes(w[6..])[1];
    assert Repeated<nat>(0, 16)[12] == 0 && Repeated<nat>(0, 16)[13] == 0;
  }

  lemma SeventhWord(v: seq<nat>)
    requires v != [] && 0 < v[0] < 65536
    ensures |WordBytes(v)| >= 2 && (WordBytes(v)[0] != 0 || WordBytes(v)[1] != 0)
  {
    assert v[0] / 256 < 256 && v[0] == 256 * (v[0] / 256) + v[0] % 256;
    assert WordBytes(v)[0] == Pair(v[0])[0] == v[0] / 256 && WordBytes(v)[1] == Pair(v[0])[1];
  }

  /** Reading undoes writing exactly when the address is not taken for an encapsulated one. */
  lemma RoundTrip(w: seq<nat>, r: Run, b: seq<nat>)
    requires AreWords(w) && IsBest(w, r)
    requires |b| == 16 && (forall i :: 0 <= i < 16 ==> b[i] < 256) && b == WordBytes(w)
    ensures Parse(CString(Printed(w, r, b))) == Address(b) <==> !Encapsulated(w, r)
  {
    hide IsBest, Parse, WordBytes, Text;
    if Encapsulated(w, r) {
      EncapsulatedIsNotRead(w, r, b);
    } else {
      BestFits(w, r);
      TextIsRead(w, r);
      WholeString(Text(w, r));
    }
  }

  lemma BestFits(w: seq<nat>, r: Run)
    requires AreWords(w) && IsBest(w, r)
    ensures r.base >= 0 ==> r.base + r.len <= 8
  {
  }
}
