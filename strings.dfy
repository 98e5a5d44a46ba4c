/** String operations the output layer relies on, as ECMAScript defines them for the
    cases the source uses: `indexOf` of one character, `split` on a one-character
    separator (with and without a limit), `Array.prototype.join`, and `String(n)` for a
    non-negative integer. */
module Strings {

  datatype Option<T> = None | Some(value: T)

  predicate StartsWith(s: string, prefix: string) {
    |prefix| <= |s| && s[..|prefix|] == prefix
  }

  predicate EndsWith(s: string, suffix: string) {
    |suffix| <= |s| && s[|s| - |suffix|..] == suffix
  }

  /** The position of the first `c` in `s`, if there is one. */
  function IndexOf(s: string, c: char): (r: Option<nat>)
    ensures r.None? <==> c !in s
    ensures r.Some? ==> r.value < |s| && s[r.value] == c && c !in s[..r.value]
  {
    if s == [] then None
    else if s[0] == c then Some(0)
    else
      assert s == [s[0]] + s[1..];
      match IndexOf(s[1..], c)
      case None => None
      case Some(i) =>
        assert s[..i + 1] == [s[0]] + s[1..][..i];
        Some(i + 1)
  }

  /** An occurrence of `c` with no earlier `c` is the one `IndexOf` finds. */
  lemma IndexOfFirst(s: string, c: char, n: nat)
    requires n < |s| && s[n] == c && c !in s[..n]
    ensures IndexOf(s, c) == Some(n)
  {
    var i := IndexOf(s, c).value;
    assert s[..n] <= s && s[..i] <= s;
  }

  /** `s.split(sep)`: the pieces of `s` between occurrences of `sep`, in order. */
  function Split(s: string, sep: char): (r: seq<string>)
    ensures |r| >= 1
    ensures |r| == 1 <==> sep !in s
    ensures forall i | 0 <= i < |r| :: sep !in r[i]
    decreases |s|
  {
    match IndexOf(s, sep)
    case None => [s]
    case Some(i) => [s[..i]] + Split(s[i + 1..], sep)
  }

  /** `s.split(sep, limit)`: the first `limit` pieces of `s.split(sep)`; the text
      beyond them is dropped. */
  function SplitLimit(s: string, sep: char, limit: nat): (r: seq<string>)
    ensures |r| <= limit
    ensures r <= Split(s, sep)
    ensures |r| < limit ==> r == Split(s, sep)
  {
    var all := Split(s, sep);
    if |all| <= limit then all else all[..limit]
  }

  /** `parts.join(sep)`. */
  function Join(parts: seq<string>, sep: string): string
  {
    if |parts| == 0 then ""
    else if |parts| == 1 then parts[0]
    else parts[0] + sep + Join(parts[1..], sep)
  }

  /** Joining the pieces of a split with the separator gives back the string. */
  lemma {:induction false} JoinSplit(s: string, sep: char)
    ensures Join(Split(s, sep), [sep]) == s
    decreases |s|
  {
    if sep in s {
      var i := IndexOf(s, sep).value;
      JoinSplit(s[i + 1..], sep);
      SplitCons(s, sep);
      SliceAround(s, i);
      JoinCons(s[..i], Split(s[i + 1..], sep), [sep]);
    }
  }

  /** A string is the text before position `i`, the character there, and the text
      after it. */
  lemma SliceAround(s: string, i: nat)
    requires i < |s|
    ensures s == s[..i] + [s[i]] + s[i + 1..]
  {
  }

  /** A string holding the separator splits into the text before its first
      occurrence, followed by the split of the text after it. */
  lemma SplitCons(s: string, sep: char)
    requires sep in s
    ensures var i := IndexOf(s, sep).value;
      Split(s, sep) == [s[..i]] + Split(s[i + 1..], sep)
  {
  }

  /** The pieces of `p + [c] + q` around position `|p|`. */
  lemma SlicesAround(p: string, c: char, q: string)
    ensures var s := p + [c] + q;
      |p| < |s| && s[..|p|] == p && s[|p|] == c && s[|p| + 1..] == q
  {
    var s := p + [c] + q;
    assert s[..|p|] == p;
    assert s[|p| + 1..] == q;
  }

  /** Joining a part before a non-empty list puts the separator between them. */
  lemma JoinCons(head: string, rest: seq<string>, sep: string)
    requires |rest| >= 1
    ensures Join([head] + rest, sep) == head + sep + Join(rest, sep)
  {
    assert ([head] + rest)[1..] == rest;
  }

  /** Splitting a join of separator-free pieces gives back the pieces. */
  lemma {:induction false} SplitJoin(parts: seq<string>, sep: char)
    requires |parts| >= 1
    requires forall i | 0 <= i < |parts| :: sep !in parts[i]
    ensures Split(Join(parts, [sep]), sep) == parts
  {
    if |parts| > 1 {
      var p, tail := parts[0], parts[1..];
      assert parts == [p] + tail;
      JoinCons(p, tail, [sep]);
      var s := p + [sep] + Join(tail, [sep]);
      SlicesAround(p, sep, Join(tail, [sep]));
      IndexOfFirst(s, sep, |p|);
      SplitCons(s, sep);
      SplitJoin(tail, sep);
    }
  }

  /** Joining two non-empty lists is joining their joins. */
  lemma {:induction false} JoinAppend(a: seq<string>, b: seq<string>, sep: string)
    requires |a| >= 1 && |b| >= 1
    ensures Join(a + b, sep) == Join(a, sep) + sep + Join(b, sep)
  {
    var head, tail := a[0], a[1..];
    assert a == [head] + tail;
    if |a| > 1 {
      JoinAppend(tail, b, sep);
      assert a + b == [head] + (tail + b);
      JoinCons(head, tail + b, sep);
      JoinCons(head, tail, sep);
      AppendAssoc(head + sep, Join(tail, sep) + sep, Join(b, sep));
    } else {
      assert a + b == [head] + b;
      JoinCons(head, b, sep);
    }
  }

  /** A character that is in neither the pieces nor the separator is not in the join. */
  lemma {:induction false} JoinExcludes(parts: seq<string>, sep: string, c: char)
    requires c !in sep
    requires forall i | 0 <= i < |parts| :: c !in parts[i]
    ensures c !in Join(parts, sep)
  {
    if |parts| > 1 {
      JoinExcludes(parts[1..], sep, c);
    }
  }

  /** `a + b + c` starts with `a` and ends with `c`. */
  lemma Framed(a: string, b: string, c: string)
    ensures StartsWith(a + b + c, a) && EndsWith(a + b + c, c)
  {
    var s := a + b + c;
    assert s[..|a|] == a;
    assert s[|s| - |c|..] == c;
  }

  lemma AppendAssoc(x: string, y: string, z: string)
    ensures x + (y + z) == x + y + z
  {
  }

  /** `f` is the field of `s` that begins at `start`: the text from there up to the
      next `sep` or to the end of `s`. */
  predicate FieldAt(s: string, start: nat, f: string, sep: char) {
    && start + |f| <= |s|
    && s[start..start + |f|] == f
    && sep !in f
    && (start + |f| == |s| || s[start + |f|] == sep)
  }

  /** A position of `s` starts exactly one field. */
  lemma FieldUnique(s: string, start: nat, f: string, g: string, sep: char)
    requires FieldAt(s, start, f, sep) && FieldAt(s, start, g, sep)
    ensures f == g
  {
  }

  /** The first piece of a split is the field at position 0, and the pieces after it
      are the split of the text after the first separator. */
  lemma SplitHead(s: string, sep: char)
    ensures FieldAt(s, 0, Split(s, sep)[0], sep)
    ensures |Split(s, sep)| > 1 ==>
      |Split(s, sep)[0]| < |s| && Split(s, sep)[1..] == Split(s[|Split(s, sep)[0]| + 1..], sep)
  {
    match IndexOf(s, sep)
    case None =>
      assert s[0..|s|] == s;
    case Some(i) =>
      assert s[0..i] == s[..i];
  }

  /** Fields of a suffix are fields of the whole string, shifted. */
  lemma FieldShift(s: string, n: nat, f: string, sep: char)
    requires n <= |s|
    ensures FieldAt(s[n..], 0, f, sep) <==> FieldAt(s, n, f, sep)
  {
    if n + |f| <= |s| {
      assert s[n..][0..|f|] == s[n..n + |f|];
    }
  }

  predicate IsDigit(c: char) {
    '0' <= c <= '9'
  }

  predicate AllDigits(s: string) {
    forall i | 0 <= i < |s| :: IsDigit(s[i])
  }

  function DigitChar(d: nat): (c: char)
    requires d < 10
    ensures IsDigit(c)
  {
    ('0' as int + d) as char
  }

  function DigitValue(c: char): (d: nat)
    requires IsDigit(c)
    ensures d < 10 && DigitChar(d) == c
  {
    c as int - '0' as int
  }

  /** `String(n)` for a non-negative integer: its decimal digits, without leading
      zeros. */
  function NatToString(n: nat): (r: string)
    ensures r != [] && AllDigits(r)
    ensures r == "0" <==> n == 0
    ensures r[0] == '0' ==> r == "0"
    decreases n
  {
    if n < 10 then [DigitChar(n)]
    else NatToString(n / 10) + [DigitChar(n % 10)]
  }

  /** Reads a string of decimal digits as the number it denotes. */
  function ParseNat(s: string): nat
    requires AllDigits(s)
  {
    if s == [] then 0
    else ParseNat(s[..|s| - 1]) * 10 + DigitValue(s[|s| - 1])
  }

  /** Reading back the decimal rendering of `n` gives `n`. */
  lemma {:induction false} ParseNatToString(n: nat)
    ensures ParseNat(NatToString(n)) == n
    decreases n
  {
    var r := NatToString(n);
    if n < 10 {
      assert r[..|r| - 1] == [];
    } else {
      ParseNatToString(n / 10);
      assert r[..|r| - 1] == NatToString(n / 10);
      assert DigitValue(r[|r| - 1]) == n % 10;
    }
  }
}
