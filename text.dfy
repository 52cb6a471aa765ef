/** String building blocks used by the SQL synthesiser and the schedule grid. */
module Text {

  /** `String.join(sep, xs)` and `Collectors.joining(sep)`. */
  function Join(xs: seq<string>, sep: string): string
  {
    if |xs| == 0 then ""
    else if |xs| == 1 then xs[0]
    else xs[0] + sep + Join(xs[1..], sep)
  }

  /** Joining two or three strings puts the separator between neighbours only. */
  lemma JoinSmall(a: string, b: string, c: string, sep: string)
    ensures Join([a], sep) == a
    ensures Join([a, b], sep) == a + sep + b
    ensures Join([a, b, c], sep) == a + sep + b + sep + c
  {
    assert [a, b][1..] == [b];
    assert [a, b, c][1..] == [b, c];
    assert Join([b, c], sep) == b + sep + c;
    assert Join([a, b, c], sep) == a + sep + Join([b, c], sep);
    assert a + sep + (b + sep + c) == a + sep + b + sep + c;
  }

  /** Every element of `xs`, followed by `suffix` (`map(f -> f + suffix)`). */
  function Suffixed(xs: seq<string>, suffix: string): (r: seq<string>)
    ensures |r| == |xs| && forall i :: 0 <= i < |xs| ==> r[i] == xs[i] + suffix
  {
    seq(|xs|, i requires 0 <= i < |xs| => xs[i] + suffix)
  }

  /** `n` copies of `s` (`map(f -> "?")` over a list of length `n`). */
  function Repeat(s: string, n: nat): (r: seq<string>)
    ensures |r| == n && forall i :: 0 <= i < n ==> r[i] == s
  {
    seq(n, _ => s)
  }

  /** Number of occurrences of the character `c` in `s`. */
  function Count(s: string, c: char): nat
  {
    if s == [] then 0 else (if s[0] == c then 1 else 0) + Count(s[1..], c)
  }

  /** Sum of the occurrences of `c` over all elements of `xs`. */
  function CountAll(xs: seq<string>, c: char): nat
  {
    if xs == [] then 0 else Count(xs[0], c) + CountAll(xs[1..], c)
  }

  lemma {:induction false} CountAppend(a: string, b: string, c: char)
    ensures Count(a + b, c) == Count(a, c) + Count(b, c)
  {
    if a != [] {
      assert (a + b)[1..] == a[1..] + b;
      CountAppend(a[1..], b, c);
    } else {
      assert a + b == b;
    }
  }

  /** A string without `c` holds it zero times. */
  lemma {:induction false} CountAbsent(s: string, c: char)
    requires c !in s
    ensures Count(s, c) == 0
  {
    if s != [] {
      assert forall x :: x in s[1..] ==> x in s;
      CountAbsent(s[1..], c);
    }
  }

  /** Appending a string without `c` adds no occurrence of `c`. */
  lemma CountAppendAbsent(a: string, b: string, c: char)
    requires c !in b
    ensures Count(a + b, c) == Count(a, c)
  {
    CountAbsent(b, c);
    CountAppend(a, b, c);
  }

  /** Prepending a string without `c` adds no occurrence of `c`. */
  lemma CountPrependAbsent(a: string, b: string, c: char)
    requires c !in a
    ensures Count(a + b, c) == Count(b, c)
  {
    CountAbsent(a, c);
    CountAppend(a, b, c);
  }

  /** A separator free of `c` adds no occurrence of `c` to a join. */
  lemma {:induction false} CountJoin(xs: seq<string>, sep: string, c: char)
    requires c !in sep
    ensures Count(Join(xs, sep), c) == CountAll(xs, c)
  {
    if |xs| == 1 {
      assert xs[1..] == [];
    } else if |xs| > 1 {
      CountJoin(xs[1..], sep, c);
      CountAppendAbsent(xs[0], sep, c);
      CountAppend(xs[0] + sep, Join(xs[1..], sep), c);
    }
  }

  /** A list whose every element holds `c` exactly once holds it `|xs|` times. */
  lemma {:induction false} CountAllOnce(xs: seq<string>, c: char)
    requires forall i :: 0 <= i < |xs| ==> Count(xs[i], c) == 1
    ensures CountAll(xs, c) == |xs|
  {
    if xs != [] {
      CountAllOnce(xs[1..], c);
    }
  }

  /** A list none of whose elements holds `c` holds it nowhere. */
  lemma {:induction false} CountAllNone(xs: seq<string>, c: char)
    requires forall i :: 0 <= i < |xs| ==> Count(xs[i], c) == 0
    ensures CountAll(xs, c) == 0
  {
    if xs != [] {
      CountAllNone(xs[1..], c);
    }
  }

  /** `Join` of a list with one more element. */
  lemma {:induction false} JoinSnoc(xs: seq<string>, x: string, sep: string)
    requires xs != []
    ensures Join(xs + [x], sep) == Join(xs, sep) + sep + x
  {
    if |xs| == 1 {
      assert (xs + [x])[1..] == [x];
    } else {
      assert (xs + [x])[1..] == xs[1..] + [x];
      JoinSnoc(xs[1..], x, sep);
    }
  }

  /** The character of a decimal digit. */
  function DigitChar(d: nat): (c: char)
    requires d < 10
    ensures '0' <= c <= '9' && c as int - '0' as int == d
  {
    ('0' as int + d) as char
  }

  predicate IsDigits(s: string)
  {
    forall i :: 0 <= i < |s| ==> '0' <= s[i] <= '9'
  }

  /** Java's decimal rendering of a non-negative `int` (`"" + n`). */
  function NatToString(n: nat): (s: string)
    ensures s != [] && IsDigits(s)
    ensures s[0] == '0' ==> n == 0
  {
    if n < 10 then [DigitChar(n)] else NatToString(n / 10) + [DigitChar(n % 10)]
  }

  /** Reads a string of decimal digits back as a number. */
  function ParseNat(s: string): nat
    requires IsDigits(s)
  {
    if s == [] then 0 else 10 * ParseNat(s[..|s| - 1]) + (s[|s| - 1] as int - '0' as int)
  }

  /** The decimal rendering is read back as the number it renders. */
  lemma {:induction false} ParseNatToString(n: nat)
    ensures ParseNat(NatToString(n)) == n
  {
    var s := NatToString(n);
    if n >= 10 {
      assert s[..|s| - 1] == NatToString(n / 10);
      ParseNatToString(n / 10);
    }
  }

  /** `Character.toLowerCase` restricted to ASCII letters. */
  function LowerChar(c: char): char
  {
    if 'A' <= c <= 'Z' then (c as int - 'A' as int + 'a' as int) as char else c
  }

  /**
   * `String.toLowerCase()` restricted to ASCII letters: every upper-case
   * letter becomes its lower-case partner, every other character stays, and
   * no upper-case letter is left.
   */
  function Lower(s: string): (r: string)
    ensures |r| == |s|
    ensures forall i :: 0 <= i < |s| ==> !('A' <= r[i] <= 'Z')
    ensures forall i :: 0 <= i < |s| && 'A' <= s[i] <= 'Z' ==> r[i] as int == s[i] as int + ('a' as int - 'A' as int)
    ensures forall i :: 0 <= i < |s| && !('A' <= s[i] <= 'Z') ==> r[i] == s[i]
  {
    seq(|s|, i requires 0 <= i < |s| => LowerChar(s[i]))
  }

  /** A string without upper-case ASCII letters is its own lower case. */
  lemma LowerOfLower(s: string)
    requires forall i :: 0 <= i < |s| ==> !('A' <= s[i] <= 'Z')
    ensures Lower(s) == s
  {
  }

  /** Lower-casing twice is lower-casing once. */
  lemma LowerIdempotent(s: string)
    ensures Lower(Lower(s)) == Lower(s)
  {
    LowerOfLower(Lower(s));
  }
}
