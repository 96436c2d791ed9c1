/** String helpers with the semantics of the java.lang.String and java.lang.Long
    operations the core relies on: contains, toLowerCase (ASCII only),
    equalsIgnoreCase, split on a one-character separator and Long.toString. */
module Text {

  /** `sub` occurs in `s` starting at index `i`. */
  predicate OccursAt(s: string, sub: string, i: nat)
  {
    i + |sub| <= |s| && s[i..i + |sub|] == sub
  }

  /** String.contains: `sub` occurs somewhere in `s` (the empty string occurs everywhere). */
  predicate Contains(s: string, sub: string)
  {
    exists i: nat :: i <= |s| && OccursAt(s, sub, i)
  }

  /** An occurrence in `s` is still an occurrence once text is added on either side. */
  lemma ContainsExtend(p: string, s: string, q: string, sub: string)
    requires Contains(s, sub)
    ensures Contains(p + s + q, sub)
  {
    var i: nat :| i <= |s| && OccursAt(s, sub, i);
    var t := p + s + q;
    assert t[|p|..|p| + |s|] == s;
    assert t[|p| + i..|p| + i + |sub|] == t[|p|..|p| + |s|][i..i + |sub|];
    assert OccursAt(t, sub, |p| + i);
  }

  /** Every character of a string that occurs in `s` is a character of `s`. */
  lemma ContainsChars(s: string, sub: string, k: nat)
    requires Contains(s, sub) && k < |sub|
    ensures sub[k] in s
  {
    var i: nat :| i <= |s| && OccursAt(s, sub, i);
    assert s[i..i + |sub|][k] == s[i + k];
  }

  /** Character.toLowerCase restricted to ASCII: 'A'..'Z' map to 'a'..'z', all else is kept. */
  function LowerChar(c: char): (d: char)
  {
    if 'A' <= c <= 'Z' then (c as int - 'A' as int + 'a' as int) as char else c
  }

  /** String.toLowerCase, character by character, ASCII letters only. */
  function Lower(s: string): (r: string)
  {
    seq(|s|, i requires 0 <= i < |s| => LowerChar(s[i]))
  }

  /** Lowering distributes over concatenation. */
  lemma LowerConcat(a: string, b: string)
    ensures Lower(a + b) == Lower(a) + Lower(b)
  {
    assert forall k | 0 <= k < |a + b| :: Lower(a + b)[k] == (Lower(a) + Lower(b))[k];
  }

  /** String.equalsIgnoreCase: same length and, position by position, the characters are
      equal, or equal after upper-casing, or equal after lower-casing (ASCII case mapping). */
  predicate EqualsIgnoreCase(a: string, b: string)
  {
    |a| == |b| &&
    forall k | 0 <= k < |a| :: a[k] == b[k] || UpperChar(a[k]) == UpperChar(b[k]) || LowerChar(a[k]) == LowerChar(b[k])
  }

  function UpperChar(c: char): (d: char)
  {
    if 'a' <= c <= 'z' then (c as int - 'a' as int + 'A' as int) as char else c
  }

  /** Comparing with a lower-case word ignoring case is comparing the lower-cased string with it. */
  lemma EqualsIgnoreCaseLower(s: string, w: string)
    requires forall k | 0 <= k < |w| :: 'a' <= w[k] <= 'z'
    ensures EqualsIgnoreCase(s, w) <==> Lower(s) == w
  {
    if EqualsIgnoreCase(s, w) {
      forall k | 0 <= k < |s| ensures Lower(s)[k] == w[k] {
        assert LowerChar(w[k]) == w[k];
      }
    }
    if Lower(s) == w {
      forall k | 0 <= k < |s|
        ensures s[k] == w[k] || UpperChar(s[k]) == UpperChar(w[k]) || LowerChar(s[k]) == LowerChar(w[k])
      {
        assert Lower(s)[k] == LowerChar(s[k]);
      }
    }
  }

  // ---------------------------------------------------------------------------
  // Splitting on a one-character separator
  // ---------------------------------------------------------------------------

  /** Index of the first occurrence of `c` in `s`. */
  function IndexOf<T(==)>(s: seq<T>, c: T): (i: nat)
    requires c in s
    ensures i < |s| && s[i] == c && c !in s[..i]
  {
    if s[0] == c then 0
    else
      assert c in s[1..] by { var j :| 0 <= j < |s| && s[j] == c; assert s[1..][j - 1] == c; }
      var j := IndexOf(s[1..], c);
      assert s[..j + 1] == [s[0]] + s[1..][..j];
      j + 1
  }

  /** All the pieces of `s` between occurrences of `c`, empty pieces included
      (`n` separators give `n + 1` pieces). */
  function Pieces(s: string, c: char): (ps: seq<string>)
    ensures |ps| >= 1
    decreases |s|
  {
    if c !in s then [s]
    else
      var i := IndexOf(s, c);
      [s[..i]] + Pieces(s[i + 1..], c)
  }

  /** The pieces glued back together with `c` between consecutive pieces. */
  function Join(ps: seq<string>, c: char): (s: string)
    requires |ps| >= 1
  {
    if |ps| == 1 then ps[0] else ps[0] + [c] + Join(ps[1..], c)
  }

  predicate NoneContains(ps: seq<string>, c: char)
  {
    forall k | 0 <= k < |ps| :: c !in ps[k]
  }

  /** Pieces and Join are inverse: joining the pieces gives back the string, and no piece
      holds the separator. */
  lemma {:induction false} JoinPieces(s: string, c: char)
    ensures Join(Pieces(s, c), c) == s
    ensures NoneContains(Pieces(s, c), c)
    decreases |s|
  {
    if c in s {
      var i := IndexOf(s, c);
      JoinPieces(s[i + 1..], c);
      assert Pieces(s, c)[1..] == Pieces(s[i + 1..], c);
      assert s == s[..i] + [c] + s[i + 1..];
    }
  }

  /** The pieces are the only separator-free sequence that joins to `s`. */
  lemma {:induction false} PiecesUnique(ps: seq<string>, c: char)
    requires |ps| >= 1 && NoneContains(ps, c)
    ensures Pieces(Join(ps, c), c) == ps
    decreases |ps|
  {
    if |ps| > 1 {
      var rest := Join(ps[1..], c);
      JoinFirstSeparator(ps[0], rest, c);
      PiecesUnique(ps[1..], c);
      assert ps == [ps[0]] + ps[1..];
    } else {
      assert c !in Join(ps, c) by { assert c !in ps[0]; }
    }
  }

  /** The first separator of `p + [c] + rest` is the one after `p` when `p` has none. */
  lemma JoinFirstSeparator(p: string, rest: string, c: char)
    requires c !in p
    ensures c in p + [c] + rest
    ensures IndexOf(p + [c] + rest, c) == |p|
    ensures (p + [c] + rest)[..|p|] == p && (p + [c] + rest)[|p| + 1..] == rest
  {
    var s := p + [c] + rest;
    assert s[|p|] == c;
    assert s[..|p|] == p;
    var i := IndexOf(s, c);
    assert i == |p|;
  }

  /** Drops the empty strings at the end of `ps`. */
  function DropTrailingEmpty(ps: seq<string>): (r: seq<string>)
    ensures |r| <= |ps| && r == ps[..|r|]
    ensures r == [] || r[|r| - 1] != []
    ensures forall k | |r| <= k < |ps| :: ps[k] == []
  {
    if ps == [] then []
    else if ps[|ps| - 1] == [] then DropTrailingEmpty(ps[..|ps| - 1])
    else ps
  }

  /** String.split with a one-character, non-special separator and no limit: when `c`
      does not occur the result is `[s]` (so the empty string gives `[""]`); otherwise
      it is the pieces with the trailing empty ones removed. */
  function JavaSplit(s: string, c: char): (ps: seq<string>)
    ensures c !in s ==> ps == [s]
    ensures c in s ==> |ps| <= |Pieces(s, c)| && ps == Pieces(s, c)[..|ps|] && (ps == [] || ps[|ps| - 1] != [])
    ensures c in s ==> forall k | |ps| <= k < |Pieces(s, c)| :: Pieces(s, c)[k] == []
    ensures NoneContains(ps, c)
  {
    if c !in s then [s]
    else
      JoinPieces(s, c);
      DropTrailingEmpty(Pieces(s, c))
  }

  /** No piece of a split holds the separator, and when the string does not end with the
      separator, splitting is inverse to joining. */
  lemma JavaSplitJoin(s: string, c: char)
    requires s == [] || s[|s| - 1] != c
    ensures |JavaSplit(s, c)| >= 1 && Join(JavaSplit(s, c), c) == s
    ensures NoneContains(JavaSplit(s, c), c)
  {
    JoinPieces(s, c);
    if c in s {
      LastPieceNonEmpty(s, c);
    }
  }

  /** A string that does not end with the separator has a non-empty last piece. */
  lemma {:induction false} LastPieceNonEmpty(s: string, c: char)
    requires s != [] && s[|s| - 1] != c
    ensures Pieces(s, c)[|Pieces(s, c)| - 1] != []
    decreases |s|
  {
    if c in s {
      var i := IndexOf(s, c);
      assert i != |s| - 1;
      LastPieceNonEmpty(s[i + 1..], c);
    }
  }

  /** A separator-free list whose last piece is non-empty splits back from its join. */
  lemma SplitOfJoin(ps: seq<string>, c: char)
    requires |ps| >= 1 && NoneContains(ps, c) && ps[|ps| - 1] != []
    ensures JavaSplit(Join(ps, c), c) == ps
  {
    if |ps| >= 2 {
      PiecesUnique(ps, c);
      var s := Join(ps, c);
      assert s == ps[0] + [c] + Join(ps[1..], c);
      assert c in s by { assert s[|ps[0]|] == c; }
    } else {
      assert c !in ps[0];
    }
  }

  // ---------------------------------------------------------------------------
  // Decimal notation (Long.toString)
  // ---------------------------------------------------------------------------

  function DigitChar(d: nat): (c: char)
    requires d < 10
  {
    ('0' as int + d) as char
  }

  predicate IsDigit(c: char)
  {
    '0' <= c <= '9'
  }

  /** Decimal digits of `n`, most significant first, with no leading zero. */
  function NatToDecimal(n: nat): (s: string)
    ensures |s| >= 1 && forall k | 0 <= k < |s| :: IsDigit(s[k])
    ensures |s| > 1 ==> s[0] != '0'
    decreases n
  {
    if n < 10 then [DigitChar(n)] else NatToDecimal(n / 10) + [DigitChar(n % 10)]
  }

  /** Long.toString: a minus sign before the digits of the magnitude of a negative value. */
  function IntToDecimal(n: int): (s: string)
  {
    if n < 0 then "-" + NatToDecimal(-n) else NatToDecimal(n)
  }

  /** The value of a string of decimal digits (the independent reading of the notation). */
  function DigitsValue(s: string): (v: nat)
    requires forall k | 0 <= k < |s| :: IsDigit(s[k])
  {
    if s == [] then 0
    else
      assert IsDigit(s[|s| - 1]);
      10 * DigitsValue(s[..|s| - 1]) + (s[|s| - 1] as int - '0' as int)
  }

  /** Long.parseLong restricted to what IntToDecimal produces. */
  function ParseDecimal(s: string): (r: Option<int>)
  {
    if s != [] && s[0] == '-' then
      if |s| >= 2 && forall k | 1 <= k < |s| :: IsDigit(s[k]) then Some(-(DigitsValue(s[1..]) as int)) else None
    else if s != [] && forall k | 0 <= k < |s| :: IsDigit(s[k]) then Some(DigitsValue(s))
    else None
  }

  /** The digits of `n` read back as `n`. */
  lemma {:induction false} DecimalValue(n: nat)
    ensures DigitsValue(NatToDecimal(n)) == n
    decreases n
  {
    if n >= 10 {
      DecimalValue(n / 10);
      var s := NatToDecimal(n);
      assert s[..|s| - 1] == NatToDecimal(n / 10);
    }
  }

  /** Reading the decimal notation of any integer gives the integer back. */
  /** The decimal notation holds only digits and a leading minus, so never a `/`. */
  lemma DecimalHasNoSlash(n: int)
    ensures '/' !in IntToDecimal(n)
  {
    var s := IntToDecimal(n);
    if n < 0 {
      assert s == "-" + NatToDecimal(-n);
      forall k | 0 <= k < |s| ensures s[k] != '/' {
        if k > 0 { assert s[k] == NatToDecimal(-n)[k - 1]; }
      }
    }
  }

  lemma DecimalRoundTrip(n: int)
    ensures ParseDecimal(IntToDecimal(n)) == Some(n)
  {
    if n < 0 {
      DecimalValue(-n);
      var s := IntToDecimal(n);
      assert s[1..] == NatToDecimal(-n);
    } else {
      DecimalValue(n);
    }
  }

  datatype Option<+T> = None | Some(value: T)
}
