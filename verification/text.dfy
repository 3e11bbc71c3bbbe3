/** The string handling the components rely on: decimal rendering of
    integers (template literals `${n}`), `Number(...)` on digit strings, and
    `String.prototype.split` with a one-character separator. */
module Text {
  import opened Wrappers

  predicate IsDigit(c: char) {
    '0' <= c <= '9'
  }

  predicate AllDigits(s: string) {
    forall i :: 0 <= i < |s| ==> IsDigit(s[i])
  }

  /** The character of a decimal digit. */
  function DigitChar(d: nat): (c: char)
    requires d < 10
    ensures IsDigit(c) && c as int - '0' as int == d
  {
    ('0' as int + d) as char
  }

  /** The value of a run of decimal digits, most significant first. */
  function DigitsValue(s: string): nat
    requires AllDigits(s)
    decreases |s|
  {
    if |s| == 0 then 0
    else DigitsValue(s[..|s| - 1]) * 10 + (s[|s| - 1] as int - '0' as int)
  }

  /** Decimal text of a natural number, as JavaScript prints it. */
  function ShowNat(n: nat): (s: string)
    ensures |s| >= 1 && AllDigits(s)
    ensures |s| > 1 ==> s[0] != '0'
    decreases n
  {
    if n < 10 then [DigitChar(n)]
    else ShowNat(n / 10) + [DigitChar(n % 10)]
  }

  /** Decimal text of an integer, with a leading '-' when negative. */
  function ShowInt(i: int): (s: string)
    ensures i < 0 <==> (|s| > 0 && s[0] == '-')
    ensures i >= 0 ==> s == ShowNat(i)
  {
    if i < 0 then "-" + ShowNat(-i) else ShowNat(i)
  }

  /** A non-empty run of decimal digits and its value; None otherwise. */
  function ParseDigits(s: string): (r: Option<nat>)
    ensures r.Some? <==> |s| > 0 && AllDigits(s)
  {
    if |s| > 0 && AllDigits(s) then Some(DigitsValue(s)) else None
  }

  /** Reading back the text of `n` gives `n`. */
  lemma {:induction false} ParseShowNat(n: nat)
    ensures ParseDigits(ShowNat(n)) == Some(n)
    decreases n
  {
    if n >= 10 {
      ParseShowNat(n / 10);
      var s := ShowNat(n);
      assert s[..|s| - 1] == ShowNat(n / 10);
      assert DigitsValue(s) == DigitsValue(ShowNat(n / 10)) * 10 + n % 10;
    }
  }

  /** `Number(part)` on the text `split` yields, where None is NaN. The empty
      string is 0; digit runs (leading zeros allowed) are their value; every
      other text is NaN in this model. */
  function JsNumber(part: Option<string>): (r: Option<int>)
    ensures part == Some("") ==> r == Some(0)
    ensures part.None? ==> r.None?
    ensures r.Some? ==> r.value >= 0
  {
    match part
    case None => None
    case Some(p) =>
      if p == "" then Some(0)
      else match ParseDigits(p)
        case None => None
        case Some(n) => Some(n)
  }

  /** `s.split(c)`: the maximal runs between occurrences of `c`. */
  function Split(s: string, c: char): (parts: seq<string>)
    ensures |parts| >= 1
    ensures forall k :: 0 <= k < |parts| ==> c !in parts[k]
    decreases |s|
  {
    if |s| == 0 then [""]
    else
      var rest := Split(s[1..], c);
      if s[0] == c then [""] + rest
      else [[s[0]] + rest[0]] + rest[1..]
  }

  /** `parts.join(c)`. */
  function Join(parts: seq<string>, c: char): string
    requires |parts| >= 1
    decreases |parts|
  {
    if |parts| == 1 then parts[0]
    else parts[0] + [c] + Join(parts[1..], c)
  }

  /** Splitting loses nothing: joining the parts back gives the original text. */
  lemma {:induction false} JoinSplit(s: string, c: char)
    ensures Join(Split(s, c), c) == s
    decreases |s|
  {
    if |s| > 0 {
      JoinSplit(s[1..], c);
      var rest := Split(s[1..], c);
      if s[0] == c {
        assert Split(s, c)[1..] == rest;
      } else if |rest| > 1 {
        var parts := Split(s, c);
        assert parts[1..] == rest[1..];
        assert Join(rest, c) == rest[0] + [c] + Join(rest[1..], c);
        assert s == [s[0]] + s[1..];
      } else {
        assert s == [s[0]] + s[1..];
      }
    }
  }

  /** Splitting `a + [c] + b` where `a` has no `c` puts `a` first and the
      parts of `b` after it. */
  lemma {:induction false} SplitAt(a: string, c: char, b: string)
    requires c !in a
    ensures Split(a + [c] + b, c) == [a] + Split(b, c)
    decreases |a|
  {
    if |a| == 0 {
      assert [c] + b == a + [c] + b;
      assert ([c] + b)[1..] == b;
    } else {
      SplitAt(a[1..], c, b);
      assert (a + [c] + b)[1..] == a[1..] + [c] + b;
      assert [a[0]] + a[1..] == a;
    }
  }

  /** A text with no `c` in it splits into itself alone. */
  lemma {:induction false} SplitNone(a: string, c: char)
    requires c !in a
    ensures Split(a, c) == [a]
    decreases |a|
  {
    if |a| > 0 {
      SplitNone(a[1..], c);
      assert [a[0]] + a[1..] == a;
    }
  }
}
