/** The string operations the views rely on: `Array.prototype.join`,
    `String.prototype.split` with a one-character separator, and the decimal
    rendering of a counter inside a template literal. */
module Strings {

  /** `parts.join(sep)`: the parts with one separator between neighbours. The
      result starts with the first part and holds at least one character per
      separator. */
  function Join(parts: seq<string>, sep: char): (r: string)
    ensures parts != [] ==> parts[0] <= r && |r| >= |parts| - 1
  {
    if |parts| == 0 then ""
    else if |parts| == 1 then parts[0]
    else parts[0] + [sep] + Join(parts[1..], sep)
  }

  /** Separator-free parts are joined by exactly one separator fewer than there
      are parts. */
  lemma {:induction false} JoinSeparatorCount(parts: seq<string>, sep: char)
    requires forall k :: 0 <= k < |parts| ==> sep !in parts[k]
    ensures multiset(Join(parts, sep))[sep] == if parts == [] then 0 else |parts| - 1
  {
    if |parts| >= 2 {
      JoinSeparatorCount(parts[1..], sep);
      assert sep !in parts[0];
    }
  }

  /** `s.split(sep)`: the maximal separator-free pieces between separators; the
      empty string splits into one empty piece. */
  function Split(s: string, sep: char): (r: seq<string>)
    ensures |r| >= 1
    ensures forall k :: 0 <= k < |r| ==> sep !in r[k]
  {
    if s == [] then [""]
    else
      var rest := Split(s[1..], sep);
      if s[0] == sep then [""] + rest
      else [[s[0]] + rest[0]] + rest[1..]
  }

  /** `Array(n).fill(x)`. */
  function Repeat<T>(x: T, n: nat): (r: seq<T>)
    ensures |r| == n && forall k :: 0 <= k < n ==> r[k] == x
  {
    seq(n, _ => x)
  }

  lemma {:induction false} SplitWithoutSeparator(t: string, sep: char)
    requires sep !in t
    ensures Split(t, sep) == [t]
  {
    if t != [] {
      SplitWithoutSeparator(t[1..], sep);
      assert [t[0]] + t[1..] == t;
    }
  }

  lemma {:induction false} SplitAfterPiece(t: string, sep: char, u: string)
    requires sep !in t
    ensures Split(t + [sep] + u, sep) == [t] + Split(u, sep)
  {
    var s := t + [sep] + u;
    if t == [] {
      assert s[1..] == u;
    } else {
      assert s[1..] == t[1..] + [sep] + u;
      SplitAfterPiece(t[1..], sep, u);
      assert [t[0]] + t[1..] == t;
    }
  }

  /** Splitting a join of separator-free parts gives the parts back. */
  lemma {:induction false} SplitJoin(parts: seq<string>, sep: char)
    requires |parts| >= 1
    requires forall k :: 0 <= k < |parts| ==> sep !in parts[k]
    ensures Split(Join(parts, sep), sep) == parts
  {
    if |parts| == 1 {
      SplitWithoutSeparator(parts[0], sep);
    } else {
      SplitJoin(parts[1..], sep);
      SplitAfterPiece(parts[0], sep, Join(parts[1..], sep));
      assert [parts[0]] + parts[1..] == parts;
    }
  }

  /** Joining the pieces of a split gives back the string. */
  lemma {:induction false} JoinSplit(s: string, sep: char)
    ensures Join(Split(s, sep), sep) == s
  {
    if s != [] {
      var rest := Split(s[1..], sep);
      JoinSplit(s[1..], sep);
      if s[0] == sep {
        assert Split(s, sep) == [""] + rest;
        assert Join(Split(s, sep), sep) == [sep] + Join(rest, sep);
      } else {
        JoinExtendFirst(s[0], rest, sep);
      }
      assert s == [s[0]] + s[1..];
    }
  }

  /** Extending the first part by a character extends the join by it. */
  lemma JoinExtendFirst(c: char, parts: seq<string>, sep: char)
    requires |parts| >= 1
    ensures Join([[c] + parts[0]] + parts[1..], sep) == [c] + Join(parts, sep)
  {
    var r := [[c] + parts[0]] + parts[1..];
    if |parts| >= 2 {
      assert r[1..] == parts[1..];
    }
  }

  /** The character of one decimal digit. */
  function Digit(d: nat): (c: char)
    requires d < 10
    ensures '0' <= c <= '9' && c as int - '0' as int == d
  {
    ('0' as int + d) as char
  }

  /** A number in a template literal: its decimal digits, without leading zeros. */
  function Decimal(n: nat): (r: string)
    ensures 1 <= |r| && (n < 10 <==> |r| == 1)
    ensures forall k :: 0 <= k < |r| ==> '0' <= r[k] <= '9'
  {
    if n < 10 then [Digit(n)] else Decimal(n / 10) + [Digit(n % 10)]
  }

  /** Different numbers render differently. */
  lemma {:induction false} DecimalInjective(a: nat, b: nat)
    requires Decimal(a) == Decimal(b)
    ensures a == b
  {
    if 10 <= a {
      var da, db := Decimal(a), Decimal(b);
      assert da[|da| - 1] == Digit(a % 10) && db[|db| - 1] == Digit(b % 10);
      assert da[..|da| - 1] == Decimal(a / 10) && db[..|db| - 1] == Decimal(b / 10);
      DecimalInjective(a / 10, b / 10);
    } else {
      assert Decimal(a)[0] == Digit(a) && Decimal(b)[0] == Digit(b);
    }
  }

  /** The first separator of `a + [sep] + b` is the one after `a`. */
  lemma FirstSeparator(a: string, b: string, sep: char)
    requires sep !in a
    ensures (a + [sep] + b)[|a|] == sep
    ensures forall k :: 0 <= k < |a| ==> (a + [sep] + b)[k] != sep
  {
    forall k | 0 <= k < |a| ensures (a + [sep] + b)[k] != sep {
      assert (a + [sep] + b)[k] == a[k];
    }
  }

  /** A separator that occurs in neither prefix locates the same cut in both strings. */
  lemma CutAtSeparator(a: string, b: string, c: string, d: string, sep: char)
    requires sep !in a && sep !in c
    requires a + [sep] + b == c + [sep] + d
    ensures a == c && b == d
  {
    var s := a + [sep] + b;
    FirstSeparator(a, b, sep);
    FirstSeparator(c, d, sep);
    assert a == s[..|a|] && c == s[..|c|];
    assert b == s[|a| + 1..] && d == s[|c| + 1..];
  }
}
