/** The order of file names in the archive index of `src/miniz.c`: byte by byte, upper-case letters of
    ASCII counted as lower-case, a name before those it begins. */
module FileOrder {
  import opened Bits

  type Name = seq<Byte>

  const MAX_NAME := 0xFFFF

  /** `MZ_TOLOWER`. */
  function ToLower(c: Byte): (r: Byte) {
    if 65 <= c <= 90 then c + 32 else c
  }

  /** Two bytes are taken for the same if they are, or are the capital and the small form of an ASCII letter; a letter
      counts as its small form. */
  lemma SameLetter(c: Byte, d: Byte)
    ensures ToLower(c) == ToLower(d) <==> c == d || ('A' as int <= c <= 'Z' as int && d == c + 32) || ('A' as int <= d <= 'Z' as int && c == d + 32)
    ensures !('A' as int <= ToLower(c) <= 'Z' as int)
  {
  }

  function Lower(s: Name): (r: Name)
    ensures |r| == |s| && forall i :: 0 <= i < |s| ==> r[i] == ToLower(s[i])
  {
    seq(|s|, i requires 0 <= i < |s| => ToLower(s[i]))
  }

  ghost predicate Precedes(a: Name, b: Name) {
    b != [] && (a == [] || a[0] < b[0] || (a[0] == b[0] && Precedes(a[1..], b[1..])))
  }

  /** Same name, or the other does not come before it. */
  ghost predicate NotAfter(names: seq<Name>, x: nat, y: nat) {
    x < |names| && y < |names| && !Precedes(Lower(names[y]), Lower(names[x]))
  }

  lemma {:induction false} PrecedesTransitive(a: Name, b: Name, c: Name)
    requires Precedes(a, b) && Precedes(b, c)
    ensures Precedes(a, c)
  {
    if a != [] && a[0] == b[0] && b[0] == c[0] {
      PrecedesTransitive(a[1..], b[1..], c[1..]);
    }
  }

  lemma {:induction false} PrecedesTotal(a: Name, b: Name)
    ensures Precedes(a, b) || Precedes(b, a) || a == b
    ensures !(Precedes(a, b) && Precedes(b, a)) && (a == b ==> !Precedes(a, b))
  {
    if a != [] && b != [] && a[0] == b[0] {
      PrecedesTotal(a[1..], b[1..]);
      if a[1..] == b[1..] {
        assert a == [a[0]] + a[1..] && b == [b[0]] + b[1..];
      }
    }
  }

  lemma NotAfterTransitive(names: seq<Name>, x: nat, y: nat, z: nat)
    requires NotAfter(names, x, y) && NotAfter(names, y, z)
    ensures NotAfter(names, x, z)
  {
    var a, b, c := Lower(names[x]), Lower(names[y]), Lower(names[z]);
    PrecedesTotal(a, b);
    PrecedesTotal(b, c);
    PrecedesTotal(a, c);
    if Precedes(c, a) {
      if Precedes(a, b) { PrecedesTransitive(c, a, b); }
    }
  }

  lemma NotAfterTotal(names: seq<Name>, x: nat, y: nat)
    requires x < |names| && y < |names|
    ensures NotAfter(names, x, y) || NotAfter(names, y, x)
  {
    PrecedesTotal(Lower(names[x]), Lower(names[y]));
  }

  /** Where two names first differ decides. */
  lemma {:induction false} PrecedesAfter(a: Name, b: Name, k: nat)
    requires k <= |a| && k <= |b| && a[..k] == b[..k]
    ensures Precedes(a, b) == Precedes(a[k..], b[k..])
  {
    if k == 0 {
      assert a[0..] == a && b[0..] == b;
    } else {
      assert a[0] == a[..k][0] == b[..k][0] == b[0];
      assert a[1..][..k - 1] == a[..k][1..] == b[..k][1..] == b[1..][..k - 1];
      PrecedesAfter(a[1..], b[1..], k - 1);
      assert a[1..][k - 1..] == a[k..] && b[1..][k - 1..] == b[k..];
    }
  }

  /** The order is that of a dictionary: a name comes before its continuations, and else the first different byte decides. */
  lemma DictionaryOrder(p: Name, x: Byte, a: Name, y: Byte, b: Name)
    ensures Precedes(p, p + [x] + a)
    ensures x < y ==> Precedes(p + [x] + a, p + [y] + b)
  {
    var l, r := p + [x] + a, p + [y] + b;
    assert p[..|p|] == l[..|p|] && r[..|p|] == l[..|p|];
    PrecedesAfter(p, l, |p|);
    PrecedesAfter(l, r, |p|);
    assert l[|p|..][0] == x && r[|p|..][0] == y;
  }

  /** Lines 3114 to 3120: how far two names agree. */
  method Agreement(l: Name, r: Name) returns (k: nat)
    ensures k <= |l| && k <= |r| && Lower(l)[..k] == Lower(r)[..k]
    ensures k < |l| && k < |r| ==> ToLower(l[k]) != ToLower(r[k])
  {
    var e := if |l| < |r| then |l| else |r|;
    k := 0;
    while k < e
      invariant k <= e && Lower(l)[..k] == Lower(r)[..k]
    {
      if ToLower(l[k]) != ToLower(r[k]) {
        break;
      }
      k := k + 1;
    }
  }

  /** `mz_zip_reader_filename_less`. */
  method FilenameLess(l: Name, r: Name) returns (less: bool)
    ensures less == Precedes(Lower(l), Lower(r))
  {
    var k := Agreement(l, r);
    PrecedesAfter(Lower(l), Lower(r), k);
    less := if k == |l| || k == |r| then |l| < |r| else ToLower(l[k]) < ToLower(r[k]);
  }

  /** A 32-bit number taken as signed. */
  function Signed(x: int): int {
    var y := x % 0x1_0000_0000;
    if y >= 0x8000_0000 then y - 0x1_0000_0000 else y
  }

  /** `mz_zip_reader_filename_compare`: zero for equal names; the sign is right as long as the name is not so
      long that the difference of the lengths overflows. */
  method FilenameCompare(l: Name, r: Name) returns (comp: int)
    requires |l| <= MAX_NAME && |r| < 0x1_0000_0000
    ensures comp == 0 <==> Lower(l) == Lower(r)
    ensures |r| <= MAX_NAME ==> (comp < 0 <==> Precedes(Lower(l), Lower(r)))
  {
    var k := Agreement(l, r);
    PrecedesAfter(Lower(l), Lower(r), k);
    if k == |l| || k == |r| {
      comp := Signed(|l| - |r|);
      if |l| == |r| {
        assert Lower(l)[..k] == Lower(l) && Lower(r)[..k] == Lower(r);
      }
    } else {
      comp := ToLower(l[k]) as int - ToLower(r[k]) as int;
      assert Lower(l)[k] != Lower(r)[k];
    }
  }
}
