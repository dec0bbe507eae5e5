/** String helpers with the semantics of the JavaScript built-ins the core uses:
    `startsWith`, `endsWith`, `indexOf`, `split` on a one-character separator,
    `join`, and zero-padded decimal rendering of numbers. */
module Text {

  import opened Wrappers

  predicate StartsWith(s: string, prefix: string) {
    |prefix| <= |s| && s[..|prefix|] == prefix
  }

  predicate EndsWith(s: string, suffix: string) {
    |suffix| <= |s| && s[|s| - |suffix|..] == suffix
  }

  /** Number of occurrences of `c` in `s`. */
  function Count(s: string, c: char): (n: nat)
    ensures n <= |s|
    ensures n == 0 <==> c !in s
  {
    if s == [] then 0 else (if s[0] == c then 1 else 0) + Count(s[1..], c)
  }

  lemma {:induction false} CountConcat(a: string, b: string, c: char)
    ensures Count(a + b, c) == Count(a, c) + Count(b, c)
  {
    if a == [] {
      assert a + b == b;
    } else {
      assert (a + b)[1..] == a[1..] + b;
      CountConcat(a[1..], b, c);
    }
  }

  /** `s.indexOf(c)`: the first position of `c`, if any. */
  function IndexOf(s: string, c: char): (r: Option<nat>)
    ensures r.None? <==> c !in s
    ensures r.Some? ==> r.value < |s| && s[r.value] == c && c !in s[..r.value]
  {
    if s == [] then None
    else if s[0] == c then Some(0)
    else match IndexOf(s[1..], c)
      case None => None
      case Some(i) => assert s[1..][..i] == s[1..i + 1]; Some(i + 1)
  }

  /** `parts.join(sep)`. */
  function Join(parts: seq<string>, sep: string): string {
    if |parts| == 0 then ""
    else if |parts| == 1 then parts[0]
    else parts[0] + sep + Join(parts[1..], sep)
  }
  /** `join` of a non-empty list starts with its first part and ends with its last. */
  lemma {:induction false} JoinEnds(parts: seq<string>, sep: string)
    requires parts != []
    ensures StartsWith(Join(parts, sep), parts[0])
    ensures EndsWith(Join(parts, sep), parts[|parts| - 1])
  {
    if |parts| > 1 {
      var rest := Join(parts[1..], sep);
      JoinEnds(parts[1..], sep);
      assert Join(parts, sep) == parts[0] + (sep + rest);
      assert parts[1..][|parts[1..]| - 1] == parts[|parts| - 1];
    }
  }


  /** `s.split(c)` for a one-character separator: every occurrence separates two
      parts, and empty parts are kept. */
  function Split(s: string, c: char): (parts: seq<string>)
    ensures |parts| == Count(s, c) + 1
    ensures forall i :: 0 <= i < |parts| ==> c !in parts[i]
    ensures Join(parts, [c]) == s
    decreases |s|
  {
    match IndexOf(s, c)
    case None => [s]
    case Some(i) =>
      var rest := Split(s[i + 1..], c);
      SplitStep(s, c, i, rest);
      [s[..i]] + rest
  }

  lemma SplitStep(s: string, c: char, i: nat, rest: seq<string>)
    requires i < |s| && s[i] == c && c !in s[..i]
    requires |rest| == Count(s[i + 1..], c) + 1 && Join(rest, [c]) == s[i + 1..]
    ensures |[s[..i]] + rest| == Count(s, c) + 1
    ensures Join([s[..i]] + rest, [c]) == s
  {
    var head, tail := s[..i], s[i + 1..];
    assert s == head + ([c] + tail);
    CountConcat(head, [c] + tail, c);
    CountConcat([c], tail, c);
    assert Count(head, c) == 0;
    var parts := [head] + rest;
    assert parts[0] == head && parts[1..] == rest;
  }

  /** Splitting undoes joining, when no part holds the separator. */
  lemma {:induction false} SplitJoin(parts: seq<string>, c: char)
    requires |parts| >= 1 && forall i :: 0 <= i < |parts| ==> c !in parts[i]
    ensures Split(Join(parts, [c]), c) == parts
  {
    if |parts| > 1 {
      var s := Join(parts, [c]);
      var p0, rest := parts[0], Join(parts[1..], [c]);
      assert s == p0 + [c] + rest;
      assert s[|p0|] == c && s[..|p0|] == p0;
      assert s[|p0| + 1..] == rest;
      SplitJoin(parts[1..], c);
      assert [p0] + parts[1..] == parts;
    }
  }

  /** The part of `s` in front of the first `c`: `s.split(c)[0]`. */
  lemma SplitHead(s: string, c: char)
    ensures Split(s, c)[0] == (match IndexOf(s, c) case None => s case Some(i) => s[..i])
  {
  }

  function DigitChar(d: nat): char
    requires d < 10
  {
    ('0' as int + d) as char
  }

  function DigitValue(ch: char): nat {
    if '0' <= ch <= '9' then (ch as int) - ('0' as int) else 0
  }

  predicate IsDigit(ch: char) {
    '0' <= ch <= '9'
  }

  function Pow10(w: nat): nat {
    if w == 0 then 1 else 10 * Pow10(w - 1)
  }

  /** The decimal rendering of `n`, left-padded with zeros to at least `w`
      characters (`String(n).padStart(w, '0')`). */
  function Digits(n: nat, w: nat): (s: string)
    ensures |s| >= 1 && |s| >= w
    ensures forall i :: 0 <= i < |s| ==> IsDigit(s[i])
    decreases n + w
  {
    if n < 10 && w <= 1 then [DigitChar(n)]
    else Digits(n / 10, if w == 0 then 0 else w - 1) + [DigitChar(n % 10)]
  }

  /** The number a string of decimal digits stands for. */
  function DecimalValue(s: string): nat {
    if s == [] then 0 else 10 * DecimalValue(s[..|s| - 1]) + DigitValue(s[|s| - 1])
  }

  /** Reading back a rendered number gives the number: the rendering is injective. */
  lemma {:induction false} DigitsValue(n: nat, w: nat)
    ensures DecimalValue(Digits(n, w)) == n
    decreases n + w
  {
    var s := Digits(n, w);
    if n < 10 && w <= 1 {
      assert s[..|s| - 1] == [];
    } else {
      var w' := if w == 0 then 0 else w - 1;
      assert s[..|s| - 1] == Digits(n / 10, w');
      DigitsValue(n / 10, w');
    }
  }

  /** A number below 10^w is rendered with exactly `w` characters. */
  lemma {:induction false} DigitsLength(n: nat, w: nat)
    requires 1 <= w && n < Pow10(w)
    ensures |Digits(n, w)| == w
    decreases n + w
  {
    if w > 1 {
      DigitsLength(n / 10, w - 1);
    } else {
      assert Pow10(1) == 10;
    }
  }

  lemma DigitsInjective(a: nat, b: nat, w: nat)
    requires Digits(a, w) == Digits(b, w)
    ensures a == b
  {
    DigitsValue(a, w);
    DigitsValue(b, w);
  }
}
