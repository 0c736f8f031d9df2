/** JSON values (`any`) and the pointer strings that `find` walks, from `src/any.cpp`. */
module JsonPointer {

  type Int64 = i: int | -0x8000_0000_0000_0000 <= i < 0x8000_0000_0000_0000

  datatype Option<+T> = None | Some(value: T)

  /** A value.  Members live in an unordered map, so only the set of pairs matters. */
  datatype Any =
    | Null
    | Boolean(boolean: bool)
    | Integer(integer: Int64)
    | Floating(floating: real)
    | String(text: string)
    | Blob(bytes: seq<bv8>)
    | Array(items: seq<Any>)
    | Object(members: map<string, Any>)

  // ---------------------------------------------------------------- equality

  /** `equals`: same type, then the same contents; containers compare their elements with it. */
  predicate Equals(a: Any, b: Any) {
    match (a, b)
    case (Null, Null) => true
    case (Boolean(x), Boolean(y)) => x == y
    case (Integer(x), Integer(y)) => x == y
    case (Floating(x), Floating(y)) => x == y
    case (String(x), String(y)) => x == y
    case (Blob(x), Blob(y)) => x == y
    case (Array(x), Array(y)) => |x| == |y| && forall i :: 0 <= i < |x| ==> Equals(x[i], y[i])
    case (Object(x), Object(y)) => |x| == |y| && forall k :: k in x ==> k in y && Equals(x[k], y[k])
    case _ => false
  }

  lemma SameSizeSubset<T>(s: set<T>, t: set<T>)
    requires s <= t && |s| == |t|
    ensures s == t
  {
    assert |t - s| == |t| - |s|;
  }

  lemma {:induction false} EqualsIsEquality(a: Any, b: Any)
    ensures Equals(a, b) <==> a == b
  {
    match (a, b)
    case (Array(x), Array(y)) =>
      forall i | 0 <= i < |x| && i < |y| ensures Equals(x[i], y[i]) <==> x[i] == y[i] {
        EqualsIsEquality(x[i], y[i]);
      }
    case (Object(x), Object(y)) =>
      forall k | k in x && k in y ensures Equals(x[k], y[k]) <==> x[k] == y[k] {
        EqualsIsEquality(x[k], y[k]);
      }
      if Equals(a, b) {
        assert |x.Keys| == |x| && |y.Keys| == |y|;
        SameSizeSubset(x.Keys, y.Keys);
      }
    case _ =>
  }

  // ---------------------------------------------------------------- pointer strings

  function IndexOf(s: string, c: char): (i: nat)
    ensures i <= |s| && (forall j :: 0 <= j < i ==> s[j] != c) && (i < |s| ==> s[i] == c)
  {
    if s == [] || s[0] == c then 0 else 1 + IndexOf(s[1..], c)
  }

  /** `string::split` at '/', which drops empty tokens. */
  function Split(s: string): seq<string>
    decreases |s|
  {
    var i := IndexOf(s, '/');
    if i == |s| then
      if |s| > 0 then [s] else []
    else
      (if i > 0 then [s[..i]] else []) + Split(s[i + 1..])
  }

  /** The tokens `find` walks: a pointer that ends in '/' gets one more, empty token. */
  function Tokens(pointer: string): seq<string> {
    if pointer == "" then []
    else Split(pointer) + (if pointer[|pointer| - 1] == '/' then [""] else [])
  }

  /** Left-to-right replacement of every occurrence of a two-character string. */
  function ReplaceAll(s: string, first: char, second: char, with: char): string {
    if |s| < 2 then s
    else if s[0] == first && s[1] == second then [with] + ReplaceAll(s[2..], first, second, with)
    else [s[0]] + ReplaceAll(s[1..], first, second, with)
  }

  /** First "~1" becomes "/", then "~0" becomes "~". */
  function Unescape(token: string): string {
    ReplaceAll(ReplaceAll(token, '~', '1', '/'), '~', '0', '~')
  }

  /** A pointer from its tokens, as the differ concatenates it. */
  function Join(tokens: seq<string>): string {
    if tokens == [] then "" else Join(tokens[..|tokens| - 1]) + "/" + tokens[|tokens| - 1]
  }

  /** A token that survives being written to a pointer and read back. */
  predicate Plain(token: string) {
    token != "" && '/' !in token && Unescape(token) == token
  }

  lemma SplitAt(s: string, i: nat)
    requires i < |s| && s[i] == '/' && forall j :: 0 <= j < i ==> s[j] != '/'
    ensures Split(s) == (if i > 0 then [s[..i]] else []) + Split(s[i + 1..])
  {
    hide IndexOf;
    assert IndexOf(s, '/') == i;
  }

  lemma SplitWhole(s: string)
    requires forall j :: 0 <= j < |s| ==> s[j] != '/'
    ensures Split(s) == if s == "" then [] else [s]
  {
    hide IndexOf;
  }

  lemma {:induction false} SplitConcat(s: string, rest: string)
    ensures Split(s + "/" + rest) == Split(s) + Split(rest)
    decreases |s|
  {
    hide Split, IndexOf;
    var whole := s + "/" + rest;
    var i := IndexOf(s, '/');
    assert forall k :: 0 <= k < |s| ==> whole[k] == s[k];
    if i == |s| {
      SplitWhole(s);
      SplitAt(whole, |s|);
      assert whole[..|s|] == s && whole[|s| + 1..] == rest;
    } else {
      SplitAt(s, i);
      SplitAt(whole, i);
      var tail := s[i + 1..];
      assert whole[i + 1..] == tail + "/" + rest && whole[..i] == s[..i];
      SplitConcat(tail, rest);
      var front := if i > 0 then [s[..i]] else [];
      assert front + (Split(tail) + Split(rest)) == front + Split(tail) + Split(rest);
    }
  }

  /** What can stand between two slashes. */
  ghost predicate AllTokens(tokens: seq<string>) {
    forall i :: 0 <= i < |tokens| ==> tokens[i] != "" && '/' !in tokens[i]
  }

  lemma {:induction false} SplitOfJoin(tokens: seq<string>)
    requires AllTokens(tokens)
    ensures Split(Join(tokens)) == tokens
  {
    if tokens != [] {
      var init, last := tokens[..|tokens| - 1], tokens[|tokens| - 1];
      SplitOfJoin(init);
      assert last != "" && '/' !in last;
      SplitConcat(Join(init), last);
      assert forall j :: 0 <= j < |last| ==> last[j] in last;
      SplitWhole(last);
      assert tokens == init + [last];
    }
  }

  lemma JoinEnds(tokens: seq<string>)
    requires tokens != [] && AllTokens(tokens)
    ensures Join(tokens) != "" && Join(tokens)[|Join(tokens)| - 1] != '/'
  {
    var last := tokens[|tokens| - 1];
    assert last[|last| - 1] in last;
    assert Join(tokens)[|Join(tokens)| - 1] == last[|last| - 1];
  }

  lemma PlainIsToken(tokens: seq<string>)
    requires forall i :: 0 <= i < |tokens| ==> Plain(tokens[i])
    ensures AllTokens(tokens)
  {
    hide Unescape;
  }

  /** Reading back the pointer that the differ writes gives the same tokens. */
  lemma TokensOfJoin(tokens: seq<string>)
    requires AllTokens(tokens)
    ensures Tokens(Join(tokens)) == tokens
    ensures tokens != [] ==> Join(tokens) != ""
  {
    hide Split, Join, AllTokens;
    SplitOfJoin(tokens);
    if tokens == [] {
      JoinNothing();
    } else {
      JoinEnds(tokens);
    }
  }

  lemma JoinNothing()
    ensures Join([]) == ""
  {
  }

  lemma TokensNotEmpty(pointer: string)
    requires pointer != ""
    ensures Tokens(pointer) != []
  {
    if pointer[|pointer| - 1] != '/' {
      SplitNotEmpty(pointer);
    }
  }

  lemma {:induction false} SplitNotEmpty(s: string)
    requires s != "" && s[|s| - 1] != '/'
    ensures Split(s) != []
    decreases |s|
  {
    var i := IndexOf(s, '/');
    if i < |s| {
      SplitNotEmpty(s[i + 1..]);
    }
  }

  /** What follows a written pointer is read on its own. */
  lemma TokensBelow(tokens: seq<string>, rest: string)
    requires AllTokens(tokens) && rest != ""
    ensures Tokens(Join(tokens) + "/" + rest) == tokens + Tokens(rest)
  {
    hide Split, Join, AllTokens;
    var whole := Join(tokens) + "/" + rest;
    SplitOfJoin(tokens);
    SplitConcat(Join(tokens), rest);
    LastOfBoth(Join(tokens) + "/", rest);
  }

  lemma LastOfBoth(front: string, rest: string)
    requires rest != ""
    ensures (front + rest)[|front + rest| - 1] == rest[|rest| - 1]
  {
  }

  // ---------------------------------------------------------------- keys in a pointer

  predicate PairAt(s: string, i: nat, first: char, second: char)
    requires i + 1 < |s|
  {
    s[i] == first && s[i + 1] == second
  }

  ghost predicate NoPair(s: string, first: char, second: char) {
    forall i: nat :: i + 1 < |s| ==> !PairAt(s, i, first, second)
  }

  lemma NoPairInTail(s: string, first: char, second: char)
    requires |s| >= 2
    ensures NoPair(s, first, second) <==> !PairAt(s, 0, first, second) && NoPair(s[1..], first, second)
  {
    if NoPair(s, first, second) {
      forall i: nat | i + 1 < |s[1..]| ensures !PairAt(s[1..], i, first, second) {
        assert !PairAt(s, i + 1, first, second);
      }
    }
    if !PairAt(s, 0, first, second) && NoPair(s[1..], first, second) {
      forall i: nat | i + 1 < |s| ensures !PairAt(s, i, first, second) {
        if i > 0 { assert !PairAt(s[1..], i - 1, first, second); }
      }
    }
  }

  /** Replacing shortens a string, unless there is nothing to replace. */
  lemma {:induction false} ReplaceAllSize(s: string, first: char, second: char, with: char)
    ensures var r := ReplaceAll(s, first, second, with);
            if NoPair(s, first, second) then r == s else |r| < |s|
    decreases |s|
  {
    hide NoPair;
    if |s| < 2 {
      assert NoPair(s, first, second) by { NoPairIfShort(s, first, second); }
    } else {
      NoPairInTail(s, first, second);
      ReplaceAllSize(s[1..], first, second, with);
      ReplaceAllSize(s[2..], first, second, with);
    }
  }

  lemma NoPairIfShort(s: string, first: char, second: char)
    requires |s| < 2
    ensures NoPair(s, first, second)
  {
  }

  /** No "~0" and no "~1", so that unescaping leaves the text as it is. */
  ghost predicate NoEscape(s: string) {
    NoPair(s, '~', '0') && NoPair(s, '~', '1')
  }

  lemma NoEscapeIsUnchanged(s: string)
    ensures Unescape(s) == s <==> NoEscape(s)
  {
    hide NoPair, ReplaceAll;
    ReplaceAllSize(s, '~', '1', '/');
    ReplaceAllSize(ReplaceAll(s, '~', '1', '/'), '~', '0', '~');
  }

  /** A pointer without escapes is read as tokens that mean what they say. */
  lemma {:induction false} SplitHasNoEscape(s: string)
    requires NoEscape(s)
    ensures forall t :: t in Split(s) ==> '/' !in t && NoEscape(t)
    decreases |s|
  {
    hide IndexOf, NoEscape;
    var i := IndexOf(s, '/');
    NoEscapeInPart(s, 0, i);
    assert s[0..i] == s[..i];
    if i == |s| {
      assert s[..i] == s;
    } else {
      NoEscapeInPart(s, i + 1, |s|);
      assert s[i + 1..|s|] == s[i + 1..];
      SplitHasNoEscape(s[i + 1..]);
    }
  }

  lemma NoEscapeInPart(s: string, from: nat, to: nat)
    requires NoEscape(s) && from <= to <= |s|
    ensures NoEscape(s[from..to])
  {
    var t := s[from..to];
    forall i: nat | i + 1 < |t| ensures !PairAt(t, i, '~', '0') && !PairAt(t, i, '~', '1') {
      assert !PairAt(s, from + i, '~', '0') && !PairAt(s, from + i, '~', '1');
    }
  }

  lemma NoEscapeAcross(s: string, t: string)
    requires NoEscape(s) && NoEscape(t)
    ensures NoEscape(s + "/" + t)
  {
    var whole := s + "/" + t;
    forall i: nat | i + 1 < |whole| ensures !PairAt(whole, i, '~', '0') && !PairAt(whole, i, '~', '1') {
      if i + 1 < |s| {
        assert !PairAt(s, i, '~', '0') && !PairAt(s, i, '~', '1');
      } else if i > |s| {
        var j: nat := i - |s| - 1;
        assert whole[i] == t[j] && whole[i + 1] == t[j + 1];
        assert !PairAt(t, j, '~', '0') && !PairAt(t, j, '~', '1');
      }
    }
  }

  /** Section 3 of RFC 6901: '~' is written "~0", and '/' is written "~1". */
  function Escape(key: string): string {
    if key == "" then ""
    else (if key[0] == '~' then "~0" else if key[0] == '/' then "~1" else [key[0]]) + Escape(key[1..])
  }

  /** The same with the slashes as they are. */
  function HalfEscape(key: string): string {
    if key == "" then "" else (if key[0] == '~' then "~0" else [key[0]]) + HalfEscape(key[1..])
  }

  lemma ReplaceOther(c: char, s: string, first: char, second: char, with: char)
    requires c != first || (s != "" && s[0] != second)
    ensures ReplaceAll([c] + s, first, second, with) == [c] + ReplaceAll(s, first, second, with)
  {
    assert ([c] + s)[1..] == s;
  }

  lemma ReplacePair(s: string, first: char, second: char, with: char)
    ensures ReplaceAll([first, second] + s, first, second, with) == [with] + ReplaceAll(s, first, second, with)
  {
    assert ([first, second] + s)[2..] == s;
  }

  lemma {:induction false} SlashesBack(key: string)
    ensures ReplaceAll(Escape(key), '~', '1', '/') == HalfEscape(key)
  {
    if key != "" {
      hide ReplaceAll;
      SlashesBack(key[1..]);
      var rest := Escape(key[1..]);
      if key[0] == '~' {
        assert "~0" + rest == ['~'] + (['0'] + rest);
        ReplaceOther('~', ['0'] + rest, '~', '1', '/');
        ReplaceOther('0', rest, '~', '1', '/');
      } else if key[0] == '/' {
        ReplacePair(rest, '~', '1', '/');
      } else {
        ReplaceOther(key[0], rest, '~', '1', '/');
      }
    }
  }

  lemma {:induction false} TildesBack(key: string)
    ensures ReplaceAll(HalfEscape(key), '~', '0', '~') == key
  {
    if key != "" {
      TildesBack(key[1..]);
      var rest := HalfEscape(key[1..]);
      if key[0] == '~' {
        ReplacePair(rest, '~', '0', '~');
      } else {
        ReplaceOther(key[0], rest, '~', '0', '~');
      }
    }
  }

  /** Every key, whatever is in it, comes back from its escaped form, which has no slash. */
  lemma EscapeIsRead(key: string)
    ensures Unescape(Escape(key)) == key && '/' !in Escape(key) && (Escape(key) == "" <==> key == "")
  {
    hide ReplaceAll;
    SlashesBack(key);
    TildesBack(key);
    NoSlashes(key);
  }

  lemma {:induction false} NoSlashes(key: string)
    ensures '/' !in Escape(key)
  {
    if key != "" { NoSlashes(key[1..]); }
  }

  // ---------------------------------------------------------------- array indices

  predicate IsDigit(c: char) { '0' <= c <= '9' }

  predicate IsSpace(c: char) {
    c == ' ' || c == '\t' || c == '\n' || c == '\r' || c as int == 11 || c as int == 12
  }

  /** `std::to_string` of a non-negative number. */
  function ToDecimal(n: nat): (s: string)
    ensures s != "" && forall i :: 0 <= i < |s| ==> IsDigit(s[i])
  {
    var digit := [('0' as int + n % 10) as char];
    if n < 10 then digit else ToDecimal(n / 10) + digit
  }

  /** The value of the longest run of digits at the front, after `acc`. */
  function Digits(s: string, acc: nat): nat {
    if s == "" || !IsDigit(s[0]) then acc else Digits(s[1..], 10 * acc + (s[0] as int - '0' as int))
  }

  /** `std::stoi`: leading blanks, a sign, at least one digit; anything after the digits is ignored.
      `None` stands for the exceptions: no digits, or a value that is not a 32-bit int. */
  function StoI(s: string): Option<int> {
    if s == "" then None
    else if IsSpace(s[0]) then StoI(s[1..])
    else
      var body := if s[0] == '-' || s[0] == '+' then s[1..] else s;
      if body == "" || !IsDigit(body[0]) then None
      else
        var v: int := if s[0] == '-' then 0 - Digits(body, 0) else Digits(body, 0);
        if -0x8000_0000 <= v < 0x8000_0000 then Some(v) else None
  }

  lemma {:induction false} DigitsAppend(s: string, c: char, acc: nat)
    requires forall i :: 0 <= i < |s| ==> IsDigit(s[i])
    requires IsDigit(c)
    ensures Digits(s + [c], acc) == 10 * Digits(s, acc) + (c as int - '0' as int)
  {
    if s == "" {
      assert ([c])[1..] == "";
    } else {
      assert (s + [c])[1..] == s[1..] + [c];
      DigitsAppend(s[1..], c, 10 * acc + (s[0] as int - '0' as int));
    }
  }

  lemma {:induction false} DigitsOfDecimal(n: nat)
    ensures Digits(ToDecimal(n), 0) == n
  {
    var c := ('0' as int + n % 10) as char;
    if n < 10 {
      assert ToDecimal(n)[1..] == "";
    } else {
      DigitsOfDecimal(n / 10);
      DigitsAppend(ToDecimal(n / 10), c, 0);
    }
  }

  lemma DecimalOneMore(n: nat, d: nat)
    requires d < 10
    ensures ToDecimal(d) == ["0123456789"[d]]
    ensures n > 0 ==> ToDecimal(10 * n + d) == ToDecimal(n) + ["0123456789"[d]]
  {
    assert (10 * n + d) / 10 == n && (10 * n + d) % 10 == d;
  }

  lemma {:induction false} SpacesSkipped(spaces: string, s: string)
    requires forall i :: 0 <= i < |spaces| ==> IsSpace(spaces[i])
    ensures StoI(spaces + s) == StoI(s)
  {
    if spaces == "" {
      assert spaces + s == s;
    } else {
      assert (spaces + s)[1..] == spaces[1..] + s;
      SpacesSkipped(spaces[1..], s);
    }
  }

  lemma {:induction false} DigitsUpTo(s: string, rest: string, acc: nat)
    requires forall i :: 0 <= i < |s| ==> IsDigit(s[i])
    requires rest == "" || !IsDigit(rest[0])
    ensures Digits(s + rest, acc) == Digits(s, acc)
  {
    if s == "" {
      assert s + rest == rest;
    } else {
      assert (s + rest)[1..] == s[1..] + rest;
      DigitsUpTo(s[1..], rest, 10 * acc + (s[0] as int - '0' as int));
    }
  }

  lemma SignIsRead(sign: string, digits: string, rest: string, n: nat)
    requires sign == "" || sign == "+" || sign == "-"
    requires digits != "" && IsDigit(digits[0]) && Digits(digits + rest, 0) == n
    ensures var v: int := if sign == "-" then 0 - n else n;
            StoI(sign + (digits + rest)) == if -0x8000_0000 <= v < 0x8000_0000 then Some(v) else None
  {
    hide Digits;
    var body := digits + rest;
    assert body[0] == digits[0];
    if sign == "" {
      assert sign + body == body;
    } else {
      assert (sign + body)[0] == sign[0] && (sign + body)[1..] == body;
    }
  }

  /** What `stoi` takes a number from: blanks, a sign if there is one, the number, and whatever follows. */
  lemma NumberIsRead(spaces: string, sign: string, n: nat, rest: string)
    requires (forall i :: 0 <= i < |spaces| ==> IsSpace(spaces[i])) && (sign == "" || sign == "+" || sign == "-")
    requires rest == "" || !IsDigit(rest[0])
    ensures var v: int := if sign == "-" then 0 - n else n;
            StoI(spaces + (sign + (ToDecimal(n) + rest))) == if -0x8000_0000 <= v < 0x8000_0000 then Some(v) else None
  {
    hide StoI, ToDecimal, Digits;
    DigitsUpTo(ToDecimal(n), rest, 0);
    DigitsOfDecimal(n);
    SignIsRead(sign, ToDecimal(n), rest, n);
    SpacesSkipped(spaces, sign + (ToDecimal(n) + rest));
  }

  lemma NoTilde(s: string)
    requires '~' !in s
    ensures NoEscape(s) && Unescape(s) == s
  {
    forall i: nat | i + 1 < |s| ensures s[i] != '~' {
      assert s[i] in s;
    }
    NoEscapeIsUnchanged(s);
  }

  /** An index written with `std::to_string` is a plain token that reads back as the index if it fits an int. */
  lemma DecimalToken(n: nat)
    ensures Plain(ToDecimal(n)) && ToDecimal(n) != "-"
    ensures StoI(ToDecimal(n)) == if n < 0x8000_0000 then Some(n) else None
  {
    var s := ToDecimal(n);
    assert IsDigit(s[0]);
    DigitsOfDecimal(n);
    forall i | 0 <= i < |s| ensures s[i] != '~' && s[i] != '/' {
      assert IsDigit(s[i]);
    }
    NoTilde(s);
  }
}
