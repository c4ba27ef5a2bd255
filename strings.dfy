/** The string operations the front end uses: `toLowerCase`, `includes`,
    `indexOf`, `substring`, `split` (with `pop` and destructuring) and the
    decimal rendering of a millisecond timestamp in a template literal. */
module Strings {

  /** Lower-casing of one character: the ASCII capitals and the Latin-1 capitals
      U+00C0 to U+00DE (among them Á, É, Í, Ñ, Ó, Ú, Ü), except the multiplication sign
      U+00D7, become the letter 32 code points above; every other character is kept. */
  function LowerChar(c: char): char
  {
    if 'A' <= c <= 'Z' || ('\U{00C0}' <= c <= '\U{00DE}' && c != '\U{00D7}') then (c as int + 32) as char else c
  }

  function ToLower(s: string): (r: string)
    ensures |r| == |s|
    ensures forall i :: 0 <= i < |s| ==> r[i] == LowerChar(s[i])
  {
    seq(|s|, i requires 0 <= i < |s| => LowerChar(s[i]))
  }

  predicate StartsWith(s: string, prefix: string)
  {
    |prefix| <= |s| && s[..|prefix|] == prefix
  }

  /** `s.includes(sub)`: some position of `s` starts an occurrence of `sub`. */
  predicate Contains(s: string, sub: string)
    decreases |s|
  {
    StartsWith(s, sub) || (s != [] && Contains(s[1..], sub))
  }

  /** An occurrence of `sub` starts at position `i` of `s`. */
  predicate OccursAt(s: string, sub: string, i: int)
  {
    0 <= i <= |s| - |sub| && s[i..i + |sub|] == sub
  }

  /** `Contains` agrees with the positional definition of an occurrence. */
  lemma {:induction false} ContainsIff(s: string, sub: string)
    ensures Contains(s, sub) <==> exists i :: OccursAt(s, sub, i)
    decreases |s|
  {
    if s != [] {
      ContainsIff(s[1..], sub);
      if Contains(s[1..], sub) {
        var i :| OccursAt(s[1..], sub, i);
        assert s[i + 1..i + 1 + |sub|] == s[1..][i..i + |sub|];
        assert OccursAt(s, sub, i + 1);
      }
      if StartsWith(s, sub) {
        assert OccursAt(s, sub, 0);
      }
      if !StartsWith(s, sub) && exists i :: OccursAt(s, sub, i) {
        var i :| OccursAt(s, sub, i);
        assert i != 0;
        assert s[1..][i - 1..i - 1 + |sub|] == s[i..i + |sub|];
        assert OccursAt(s[1..], sub, i - 1);
      }
    } else {
      if exists i :: OccursAt(s, sub, i) {
        var i :| OccursAt(s, sub, i);
        assert StartsWith(s, sub);
      }
      if StartsWith(s, sub) {
        assert OccursAt(s, sub, 0);
      }
    }
  }

  /** `s.indexOf(sub)`: the first position where `sub` occurs, or -1. */
  function IndexOf(s: string, sub: string): (r: int)
    ensures r == -1 || 0 <= r <= |s| - |sub|
    ensures r >= 0 ==> s[r..r + |sub|] == sub
    ensures r >= 0 ==> forall j :: 0 <= j < r ==> !StartsWith(s[j..], sub)
    ensures r == -1 <==> !Contains(s, sub)
    decreases |s|
  {
    if StartsWith(s, sub) then 0
    else if s == [] then -1
    else
      var i := IndexOf(s[1..], sub);
      assert forall j :: 0 < j <= i ==> s[j..] == s[1..][j - 1..];
      if i < 0 then -1 else i + 1
  }

  /** The first occurrence of `sub` in `a` is still the first one after text is appended. */
  lemma IndexOfAppend(a: string, b: string, sub: string)
    requires IndexOf(a, sub) >= 0
    ensures IndexOf(a + b, sub) == IndexOf(a, sub)
  {
    var i := IndexOf(a, sub);
    assert (a + b)[i..i + |sub|] == a[i..i + |sub|];
    forall j | 0 <= j < i ensures !StartsWith((a + b)[j..], sub) {
      assert !StartsWith(a[j..], sub);
      assert (a + b)[j..][..|sub|] == a[j..][..|sub|];
    }
    IndexOfFirst(a + b, sub, i);
  }

  /** A position holding an occurrence, with none before it, is what `IndexOf` returns. */
  lemma {:induction false} IndexOfFirst(s: string, sub: string, i: nat)
    requires i <= |s| - |sub| && s[i..i + |sub|] == sub
    requires forall j :: 0 <= j < i ==> !StartsWith(s[j..], sub)
    ensures IndexOf(s, sub) == i
    decreases |s|
  {
    if i == 0 {
      assert StartsWith(s, sub);
    } else {
      assert !StartsWith(s[0..], sub);
      assert s[1..][i - 1..i - 1 + |sub|] == sub;
      forall j | 0 <= j < i - 1 ensures !StartsWith(s[1..][j..], sub) {
        assert s[1..][j..] == s[j + 1..];
      }
      IndexOfFirst(s[1..], sub, i - 1);
    }
  }

  /** `s.split(c)`: the maximal pieces of `s` between occurrences of `c`. */
  function Split(s: string, c: char): (r: seq<string>)
    ensures |r| >= 1
    ensures forall k :: 0 <= k < |r| ==> c !in r[k]
    decreases |s|
  {
    if s == [] then [""]
    else
      var rest := Split(s[1..], c);
      if s[0] == c then [""] + rest
      else [[s[0]] + rest[0]] + rest[1..]
  }

  /** `pieces.join(c)`. */
  function Join(pieces: seq<string>, c: char): string
    requires |pieces| >= 1
    decreases |pieces|
  {
    if |pieces| == 1 then pieces[0] else pieces[0] + [c] + Join(pieces[1..], c)
  }

  function Last<T>(s: seq<T>): T
    requires |s| >= 1
  {
    s[|s| - 1]
  }

  /** Joining the pieces of a split gives the original string back. */
  lemma {:induction false} JoinSplit(s: string, c: char)
    ensures Join(Split(s, c), c) == s
    decreases |s|
  {
    if s != [] {
      JoinSplit(s[1..], c);
      var rest := Split(s[1..], c);
      if s[0] == c {
        assert s == [c] + s[1..];
      } else if |rest| == 1 {
        assert s == [s[0]] + s[1..];
      } else {
        assert s == [s[0]] + s[1..];
        assert ([[s[0]] + rest[0]] + rest[1..])[1..] == rest[1..];
      }
    }
  }

  /** Splitting text that starts with a character other than `c` extends the first piece. */
  lemma SplitCons(x: char, t: string, c: char)
    requires x != c
    ensures Split([x] + t, c) == [[x] + Split(t, c)[0]] + Split(t, c)[1..]
  {
    assert ([x] + t)[1..] == t;
  }

  /** Splitting text that starts with `c` opens an empty first piece. */
  lemma SplitSeparator(t: string, c: char)
    ensures Split([c] + t, c) == [""] + Split(t, c)
  {
    assert ([c] + t)[1..] == t;
  }

  /** Splitting a join of pieces free of `c` gives the pieces back. */
  lemma {:induction false} SplitJoin(pieces: seq<string>, c: char)
    requires |pieces| >= 1
    requires forall k :: 0 <= k < |pieces| ==> c !in pieces[k]
    ensures Split(Join(pieces, c), c) == pieces
    decreases |pieces|, |pieces[0]|
  {
    var p := pieces[0];
    if p == [] {
      if |pieces| > 1 {
        SplitJoin(pieces[1..], c);
        assert Join(pieces, c) == [c] + Join(pieces[1..], c);
        SplitSeparator(Join(pieces[1..], c), c);
        assert [""] + pieces[1..] == pieces;
      }
    } else {
      var shorter := [p[1..]] + pieces[1..];
      assert shorter[1..] == pieces[1..];
      assert c !in p[1..] by {
        assert forall x :: x in p[1..] ==> x in p;
      }
      SplitJoin(shorter, c);
      JoinConsFirst(pieces, c);
      assert p[0] != c by { assert p[0] in p; }
      SplitCons(p[0], Join(shorter, c), c);
      assert [p[0]] + p[1..] == p;
      assert [p] + pieces[1..] == pieces;
    }
  }

  /** Joining pieces whose first piece is not empty starts with that piece's first character. */
  lemma JoinConsFirst(pieces: seq<string>, c: char)
    requires |pieces| >= 1 && pieces[0] != []
    ensures Join(pieces, c) == [pieces[0][0]] + Join([pieces[0][1..]] + pieces[1..], c)
  {
    var p := pieces[0];
    var shorter := [p[1..]] + pieces[1..];
    assert shorter[1..] == pieces[1..];
    assert p == [p[0]] + p[1..];
  }

  /** The last piece is what follows the last `c`. */
  lemma {:induction false} JoinLast(pieces: seq<string>, c: char)
    requires |pieces| >= 2
    ensures Join(pieces, c) == Join(pieces[..|pieces| - 1], c) + [c] + Last(pieces)
    decreases |pieces|
  {
    if |pieces| > 2 {
      JoinLast(pieces[1..], c);
      assert pieces[1..][..|pieces| - 2] == pieces[..|pieces| - 1][1..];
    }
  }

  /** `s.split(c).pop()`: the text after the last `c`, or all of `s` when there is
      no `c`; it holds no `c` and is a suffix of `s`. */
  lemma AfterLastSpec(s: string, c: char)
    ensures var p := Last(Split(s, c));
      && c !in p
      && |p| <= |s| && s[|s| - |p|..] == p
      && (c in s ==> |p| < |s| && s[|s| - |p| - 1] == c)
      && (c !in s ==> p == s)
  {
    var pieces := Split(s, c);
    var p := Last(pieces);
    JoinSplit(s, c);
    if |pieces| == 1 {
      assert p == s;
    } else {
      JoinLast(pieces, c);
      var pre := Join(pieces[..|pieces| - 1], c);
      assert s == pre + [c] + p;
      assert s[|s| - |p| - 1] == c;
      assert s[|s| - |p|..] == p;
    }
  }

  /** The text after the last `c` of `s + [c] + ext` is `ext` when `ext` holds no `c`. */
  lemma AfterLastOf(s: string, c: char, ext: string)
    requires c !in ext
    ensures Last(Split(s + [c] + ext, c)) == ext
  {
    var t := s + [c] + ext;
    var p := Last(Split(t, c));
    AfterLastSpec(t, c);
    assert t[|s|] == c;
    assert c in t;
    assert t[|t| - |ext|..] == ext;
  }

  /** The first piece of a split keeps the first character when that is not `c`. */
  lemma SplitFirstPiece(s: string, c: char)
    requires |s| > 0 && s[0] != c
    ensures |Split(s, c)[0]| > 0 && Split(s, c)[0][0] == s[0]
  {
  }

  /** Decimal digits of a millisecond timestamp, as a template literal renders it. */
  function DigitChar(d: nat): (r: char)
    requires d < 10
    ensures '0' <= r <= '9'
  {
    "0123456789"[d]
  }

  function NatToString(n: nat): (r: string)
    ensures |r| > 0
    ensures forall i :: 0 <= i < |r| ==> '0' <= r[i] <= '9'
    decreases n
  {
    if n < 10 then [DigitChar(n)] else NatToString(n / 10) + [DigitChar(n % 10)]
  }
}
