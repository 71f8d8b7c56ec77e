/**
 * The string operations the inventory code relies on: Python's `str()` of an
 * integer (as used inside f-strings), `sep.join(items)` and, as the inverse of a
 * join over one separator character, `s.split(c)`.
 */
module Text {
  import opened Wrappers

  predicate IsDigit(c: char) {
    '0' <= c <= '9'
  }

  predicate AllDigits(s: string) {
    forall i :: 0 <= i < |s| ==> IsDigit(s[i])
  }

  function DigitChar(d: nat): (c: char)
    requires d < 10
    ensures IsDigit(c)
  {
    ('0' as int + d) as char
  }

  function DigitValue(c: char): (d: nat)
    requires IsDigit(c)
    ensures d < 10 && DigitChar(d) == c
  {
    c as int - '0' as int
  }

  /** The decimal digits of `n`, most significant first, without leading zeros. */
  function NatText(n: nat): (s: string)
    ensures |s| >= 1 && AllDigits(s)
    ensures s[0] == '0' ==> n == 0
    decreases n
  {
    if n < 10 then [DigitChar(n)] else NatText(n / 10) + [DigitChar(n % 10)]
  }

  /** `str(n)` for a Python integer: a minus sign before the digits of a negative number. */
  function IntText(n: int): string {
    if n < 0 then "-" + NatText(-n) else NatText(n)
  }

  /** The number a string of decimal digits denotes. */
  function ParseNat(s: string): nat
    requires AllDigits(s)
    decreases |s|
  {
    if s == [] then 0 else 10 * ParseNat(s[..|s| - 1]) + DigitValue(s[|s| - 1])
  }

  /** `int(s)` on an optional minus sign followed by at least one digit; `None` otherwise. */
  function ParseInt(s: string): Option<int> {
    if |s| >= 2 && s[0] == '-' && AllDigits(s[1..]) then Some(0 - ParseNat(s[1..]))
    else if |s| >= 1 && AllDigits(s) then Some(ParseNat(s))
    else None
  }

  lemma {:induction false} ParseNatText(n: nat)
    ensures ParseNat(NatText(n)) == n
    decreases n
  {
    if n >= 10 {
      var s := NatText(n);
      assert s[..|s| - 1] == NatText(n / 10);
      ParseNatText(n / 10);
    }
  }

  /** Reading back the decimal text of an integer gives the integer. */
  lemma IntTextRoundTrip(n: int)
    ensures ParseInt(IntText(n)) == Some(n)
  {
    if n < 0 {
      assert IntText(n)[1..] == NatText(-n);
      ParseNatText(-n);
    } else {
      ParseNatText(n);
    }
  }

  /** `sep.join(items)`. */
  function Join(items: seq<string>, sep: string): string
    decreases |items|
  {
    if |items| == 0 then ""
    else if |items| == 1 then items[0]
    else items[0] + sep + Join(items[1..], sep)
  }

  /** Joining two non-empty lists is joining each and putting `sep` between. */
  lemma {:induction false} JoinConcat(a: seq<string>, b: seq<string>, sep: string)
    requires |a| >= 1 && |b| >= 1
    ensures Join(a + b, sep) == Join(a, sep) + sep + Join(b, sep)
    decreases |a|
  {
    assert (a + b)[0] == a[0];
    if |a| > 1 {
      assert (a + b)[1..] == a[1..] + b;
      JoinConcat(a[1..], b, sep);
    } else {
      assert (a + b)[1..] == b;
    }
  }

  /** Where the `i`-th item starts in `Join(items, sep)`. */
  function Offset(items: seq<string>, sep: string, i: nat): nat
    requires i <= |items|
    decreases i
  {
    if i == 0 then 0 else |items[0]| + |sep| + Offset(items[1..], sep, i - 1)
  }

  /** Item `i + 1` starts one item and one separator after item `i`. */
  lemma {:induction false} OffsetNext(items: seq<string>, sep: string, i: nat)
    requires i < |items|
    ensures Offset(items, sep, i + 1) == Offset(items, sep, i) + |items[i]| + |sep|
    decreases i
  {
    if i > 0 {
      OffsetNext(items[1..], sep, i - 1);
    }
  }

  lemma SliceAfter(a: string, b: string, lo: nat, hi: nat)
    requires |a| <= lo <= hi <= |a| + |b|
    ensures (a + b)[lo..hi] == b[lo - |a|..hi - |a|]
  {
  }

  /** `Join(items, sep)` holds item `i` at `Offset(items, sep, i)`. */
  lemma {:induction false} JoinItemAt(items: seq<string>, sep: string, i: nat)
    requires i < |items|
    ensures Offset(items, sep, i) + |items[i]| <= |Join(items, sep)|
    ensures Join(items, sep)[Offset(items, sep, i)..Offset(items, sep, i) + |items[i]|] == items[i]
    decreases i
  {
    if |items| > 1 {
      var head, rest := items[0] + sep, Join(items[1..], sep);
      assert Join(items, sep) == head + rest;
      if i == 0 {
        assert head + rest == items[0] + (sep + rest);
        assert (items[0] + (sep + rest))[..|items[0]|] == items[0];
      } else {
        var at := Offset(items[1..], sep, i - 1);
        assert Offset(items, sep, i) == |head| + at;
        JoinItemAt(items[1..], sep, i - 1);
        assert items[1..][i - 1] == items[i];
        SliceAfter(head, rest, |head| + at, |head| + at + |items[i]|);
      }
    }
  }

  /** In `Join(items, sep)` every item but the last is followed by `sep`. */
  lemma {:induction false} JoinSepAfter(items: seq<string>, sep: string, i: nat)
    requires i + 1 < |items|
    ensures Offset(items, sep, i + 1) == Offset(items, sep, i) + |items[i]| + |sep|
    ensures Offset(items, sep, i + 1) <= |Join(items, sep)|
    ensures Join(items, sep)[Offset(items, sep, i) + |items[i]|..Offset(items, sep, i + 1)] == sep
    decreases i
  {
    OffsetNext(items, sep, i);
    var head, rest := items[0] + sep, Join(items[1..], sep);
    assert Join(items, sep) == head + rest;
    if i == 0 {
      assert Offset(items, sep, 1) == |head|;
    } else {
      JoinSepAfter(items[1..], sep, i - 1);
      OffsetNext(items[1..], sep, i - 1);
      assert items[1..][i - 1] == items[i];
      SliceAfter(head, rest, Offset(items, sep, i) + |items[i]|, Offset(items, sep, i + 1));
    }
  }

  /** `Join(items, sep)` ends with its last item. */
  lemma {:induction false} JoinLength(items: seq<string>, sep: string)
    requires |items| >= 1
    ensures |Join(items, sep)| == Offset(items, sep, |items| - 1) + |items[|items| - 1]|
    decreases |items|
  {
    if |items| > 1 {
      JoinLength(items[1..], sep);
    }
  }

  /** `s.split(c)`: the pieces of `s` between occurrences of `c`; always at least one. */
  function Split(s: string, c: char): (parts: seq<string>)
    ensures |parts| >= 1
  {
    SplitFrom(s, c, "")
  }

  /** Splitting `s` when the piece under way already holds `piece`. */
  function SplitFrom(s: string, c: char, piece: string): (parts: seq<string>)
    ensures |parts| >= 1
    decreases |s|
  {
    if s == [] then [piece]
    else if s[0] == c then [piece] + SplitFrom(s[1..], c, "")
    else SplitFrom(s[1..], c, piece + [s[0]])
  }

  lemma {:induction false} SplitFromNone(a: string, c: char, piece: string)
    requires c !in a
    ensures SplitFrom(a, c, piece) == [piece + a]
    decreases |a|
  {
    if a == [] {
      assert piece + a == piece;
    } else {
      SplitFromNone(a[1..], c, piece + [a[0]]);
      assert piece + [a[0]] + a[1..] == piece + a;
    }
  }

  lemma {:induction false} SplitFromFirst(a: string, c: char, b: string, piece: string)
    requires c !in a
    ensures SplitFrom(a + [c] + b, c, piece) == [piece + a] + SplitFrom(b, c, "")
    decreases |a|
  {
    var s := a + [c] + b;
    if a == [] {
      assert s[0] == c && s[1..] == b;
      assert piece + a == piece;
    } else {
      assert s[0] == a[0] && s[1..] == a[1..] + [c] + b;
      SplitFromFirst(a[1..], c, b, piece + [a[0]]);
      assert piece + [a[0]] + a[1..] == piece + a;
    }
  }

  lemma {:induction false} SplitFromLast(a: string, c: char, b: string, piece: string)
    requires c !in b
    ensures SplitFrom(a + [c] + b, c, piece) == SplitFrom(a, c, piece) + [b]
    decreases |a|
  {
    var s := a + [c] + b;
    if a == [] {
      assert s[0] == c && s[1..] == b;
      SplitFromNone(b, c, "");
      assert "" + b == b;
    } else {
      assert s[0] == a[0] && s[1..] == a[1..] + [c] + b;
      if a[0] == c {
        SplitFromLast(a[1..], c, b, "");
      } else {
        SplitFromLast(a[1..], c, b, piece + [a[0]]);
      }
    }
  }

  lemma SplitNone(a: string, c: char)
    requires c !in a
    ensures Split(a, c) == [a]
  {
    SplitFromNone(a, c, "");
    assert "" + a == a;
  }

  lemma SplitFirst(a: string, c: char, b: string)
    requires c !in a
    ensures Split(a + [c] + b, c) == [a] + Split(b, c)
  {
    SplitFromFirst(a, c, b, "");
    assert "" + a == a;
  }

  /** A last piece without `c`, after a `c`, splits off as one more piece. */
  lemma SplitLast(a: string, c: char, b: string)
    requires c !in b
    ensures Split(a + [c] + b, c) == Split(a, c) + [b]
  {
    SplitFromLast(a, c, b, "");
  }

  /** Splitting a join over one separator character gives back the items, when no item holds it. */
  lemma {:induction false} SplitJoin(items: seq<string>, c: char)
    requires |items| >= 1
    requires forall i :: 0 <= i < |items| ==> c !in items[i]
    ensures Split(Join(items, [c]), c) == items
    decreases |items|
  {
    if |items| == 1 {
      SplitNone(items[0], c);
    } else {
      SplitFirst(items[0], c, Join(items[1..], [c]));
      SplitJoin(items[1..], c);
      assert [items[0]] + items[1..] == items;
    }
  }
}
