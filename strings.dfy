/**
 * Python's `str.split(sep)` and `sep.join(pieces)` for a one-character
 * separator, and the offsets at which the joined pieces sit.
 */
module Strings {

  /** `s.split(c)`: the maximal pieces between occurrences of `c`; `"".split(c) == [""]`. */
  function Split(s: string, c: char): (r: seq<string>)
    ensures |r| >= 1
    ensures forall k :: 0 <= k < |r| ==> c !in r[k]
    decreases |s|
  {
    if |s| == 0 then [""]
    else if s[0] == c then [""] + Split(s[1..], c)
    else
      var rest := Split(s[1..], c);
      [[s[0]] + rest[0]] + rest[1..]
  }

  /** `c.join(pieces)`. */
  function Join(pieces: seq<string>, c: char): string
    requires |pieces| >= 1
  {
    if |pieces| == 1 then pieces[0] else pieces[0] + [c] + Join(pieces[1..], c)
  }

  /** Joining the pieces of a split gives the string back. */
  lemma {:induction false} JoinSplit(s: string, c: char)
    ensures Join(Split(s, c), c) == s
    decreases |s|
  {
    if |s| == 0 {
    } else if s[0] == c {
      JoinSplit(s[1..], c);
      assert s == [c] + s[1..];
    } else {
      JoinSplit(s[1..], c);
      var rest := Split(s[1..], c);
      if |rest| == 1 {
      } else {
        assert Join(rest, c) == rest[0] + [c] + Join(rest[1..], c);
        assert ([[s[0]] + rest[0]] + rest[1..])[1..] == rest[1..];
      }
      assert s == [s[0]] + s[1..];
    }
  }

  /** A piece free of `c`, then `c`, splits off as the first piece. */
  lemma {:induction false} SplitAfterPiece(a: string, c: char, b: string)
    requires c !in a
    ensures Split(a + [c] + b, c) == [a] + Split(b, c)
    decreases |a|
  {
    if |a| == 0 {
      assert a + [c] + b == [c] + b;
      assert ([c] + b)[1..] == b;
    } else {
      SplitAfterPiece(a[1..], c, b);
      assert (a + [c] + b)[1..] == a[1..] + [c] + b;
      assert [a[0]] + a[1..] == a;
    }
  }

  /** Splitting a join of `c`-free pieces gives the pieces back. */
  lemma {:induction false} SplitJoin(pieces: seq<string>, c: char)
    requires |pieces| >= 1
    requires forall k :: 0 <= k < |pieces| ==> c !in pieces[k]
    ensures Split(Join(pieces, c), c) == pieces
  {
    if |pieces| == 1 {
      SplitFree(pieces[0], c);
    } else {
      SplitJoin(pieces[1..], c);
      SplitAfterPiece(pieces[0], c, Join(pieces[1..], c));
      assert [pieces[0]] + pieces[1..] == pieces;
    }
  }

  /** A string free of `c` splits into itself alone. */
  lemma {:induction false} SplitFree(s: string, c: char)
    requires c !in s
    ensures Split(s, c) == [s]
    decreases |s|
  {
    if |s| > 0 {
      SplitFree(s[1..], c);
      assert [s[0]] + s[1..] == s;
    }
  }

  /** Where piece `k` starts in `Join(pieces, c)`: the lengths before it, each plus one separator. */
  function PieceStart(lengths: seq<nat>, k: nat): nat
    requires k <= |lengths|
  {
    if k == 0 then 0 else lengths[0] + 1 + PieceStart(lengths[1..], k - 1)
  }

  function Lengths(pieces: seq<string>): (r: seq<nat>)
    ensures |r| == |pieces|
    ensures forall k :: 0 <= k < |pieces| ==> r[k] == |pieces[k]|
  {
    seq(|pieces|, k requires 0 <= k < |pieces| => |pieces[k]|)
  }

  /** The joined text is as long as the pieces plus one separator between each two. */
  lemma {:induction false} JoinLength(pieces: seq<string>, c: char)
    requires |pieces| >= 1
    ensures |Join(pieces, c)| + 1 == PieceStart(Lengths(pieces), |pieces|)
  {
    if |pieces| > 1 {
      JoinLength(pieces[1..], c);
      assert Lengths(pieces)[1..] == Lengths(pieces[1..]);
    }
  }

  /** Slicing the joined text at the offsets computed from the lengths recovers each piece. */
  lemma {:induction false} JoinPieceAt(pieces: seq<string>, c: char, k: nat)
    requires k < |pieces|
    ensures PieceStart(Lengths(pieces), k) + |pieces[k]| <= |Join(pieces, c)|
    ensures Join(pieces, c)[PieceStart(Lengths(pieces), k)..PieceStart(Lengths(pieces), k) + |pieces[k]|] == pieces[k]
  {
    var text := Join(pieces, c);
    if |pieces| == 1 {
    } else if k == 0 {
      assert text == pieces[0] + ([c] + Join(pieces[1..], c));
    } else {
      JoinPieceAt(pieces[1..], c, k - 1);
      assert Lengths(pieces)[1..] == Lengths(pieces[1..]);
      var rest := Join(pieces[1..], c);
      var start := PieceStart(Lengths(pieces[1..]), k - 1);
      assert text == (pieces[0] + [c]) + rest;
      assert PieceStart(Lengths(pieces), k) == |pieces[0] + [c]| + start;
      assert text[|pieces[0] + [c]| + start..|pieces[0] + [c]| + start + |pieces[k]|]
          == rest[start..start + |pieces[k]|];
    }
  }
}

/** Decimal rendering of integers, as Python's f'{i}' and a JavaScript template literal print them. */
module Decimal {

  predicate IsDigit(c: char) { '0' as int <= c as int <= '9' as int }

  function DigitChar(d: nat): (c: char)
    requires d < 10
    ensures IsDigit(c) && (c as int) - ('0' as int) == d
  {
    ['0', '1', '2', '3', '4', '5', '6', '7', '8', '9'][d]
  }

  /** The decimal digits of `n`, most significant first, with no leading zero. */
  function NatToString(n: nat): (s: string)
    ensures |s| >= 1
    ensures forall k :: 0 <= k < |s| ==> IsDigit(s[k])
    ensures |s| > 1 ==> s[0] != '0'
  {
    if n < 10 then [DigitChar(n)] else NatToString(n / 10) + [DigitChar(n % 10)]
  }

  /** A signed integer: a minus sign before the digits of its magnitude. */
  function IntToString(i: int): string
  {
    if i < 0 then "-" + NatToString(-i) else NatToString(i)
  }

  /** The value of a string of decimal digits. */
  function ParseDigits(s: string): nat
    requires forall k :: 0 <= k < |s| ==> IsDigit(s[k])
  {
    if |s| == 0 then 0
    else
      assert IsDigit(s[|s| - 1]);
      ParseDigits(s[..|s| - 1]) * 10 + ((s[|s| - 1] as int) - ('0' as int))
  }

  /** Reading the digits back gives the number: the rendering loses nothing. */
  lemma {:induction false} ParseNatToString(n: nat)
    ensures ParseDigits(NatToString(n)) == n
  {
    if n >= 10 {
      ParseNatToString(n / 10);
      var s := NatToString(n);
      assert s[..|s| - 1] == NatToString(n / 10);
    }
  }

  /** Distinct numbers render as distinct strings. */
  lemma NatToStringInjective(m: nat, n: nat)
    requires m != n
    ensures NatToString(m) != NatToString(n)
  {
    ParseNatToString(m);
    ParseNatToString(n);
  }
}
