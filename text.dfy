/** String helpers shared by the backend and the front end: Python's
    `str.split`/`str.join` on one separator character, JavaScript's
    `includes` and an ASCII `toLowerCase`, and decimal rendering of indices. */
module Text {

  /** `s.startsWith(prefix)` */
  predicate StartsWith(s: string, prefix: string)
  {
    |prefix| <= |s| && s[..|prefix|] == prefix
  }

  /** JavaScript `s.includes(sub)`: `sub` occurs in `s` at some position. */
  predicate Includes(s: string, sub: string)
    decreases |s|
  {
    StartsWith(s, sub) || (s != [] && Includes(s[1..], sub))
  }

  /** Every string includes the empty string. */
  lemma IncludesEmpty(s: string)
    ensures Includes(s, "")
  {
    assert s[..0] == "";
  }

  // ---------------------------------------------------------------------
  // Lower-casing (ASCII only)

  function LowerChar(c: char): char
  {
    if 'A' <= c <= 'Z' then (c as int + 32) as char else c
  }

  /** `toLowerCase`, restricted to the ASCII letters. */
  function ToLower(s: string): (r: string)
    ensures |r| == |s|
    ensures forall i :: 0 <= i < |s| ==> r[i] == LowerChar(s[i])
  {
    if s == [] then [] else [LowerChar(s[0])] + ToLower(s[1..])
  }

  /** Lower-casing twice is lower-casing once. */
  lemma ToLowerIdempotent(s: string)
    ensures ToLower(ToLower(s)) == ToLower(s)
  {
    var once := ToLower(s);
    var twice := ToLower(once);
    assert forall i :: 0 <= i < |s| ==> twice[i] == once[i];
  }

  // ---------------------------------------------------------------------
  // Deleting one character everywhere

  /** `s` with every occurrence of `c` removed. */
  function DeleteAll(s: string, c: char): (r: string)
    ensures c !in r
    ensures |r| <= |s|
  {
    if s == [] then [] else (if s[0] == c then [] else [s[0]]) + DeleteAll(s[1..], c)
  }

  lemma DeleteAllAppend(a: string, b: string, c: char)
    ensures DeleteAll(a + b, c) == DeleteAll(a, c) + DeleteAll(b, c)
  {
    if a != [] {
      assert (a + b)[0] == a[0];
      assert (a + b)[1..] == a[1..] + b;
      DeleteAllAppend(a[1..], b, c);
    } else {
      assert a + b == b;
    }
  }

  // ---------------------------------------------------------------------
  // Python `s.split(sep)` and `sep.join(parts)`

  /** Python `s.split(sep)`: the pieces between occurrences of `sep`.
      There is always at least one piece and no piece holds `sep`. */
  function Split(s: string, sep: char): (parts: seq<string>)
    ensures |parts| >= 1
    ensures forall i :: 0 <= i < |parts| ==> sep !in parts[i]
  {
    if s == [] then [""]
    else
      var prev := Split(s[..|s| - 1], sep);
      var c := s[|s| - 1];
      if c == sep then prev + [""]
      else prev[..|prev| - 1] + [prev[|prev| - 1] + [c]]
  }

  /** Python `sep.join(parts)`. */
  function Join(parts: seq<string>, sep: char): string
  {
    if |parts| == 0 then ""
    else if |parts| == 1 then parts[0]
    else Join(parts[..|parts| - 1], sep) + [sep] + parts[|parts| - 1]
  }

  /** Joining the pieces of a split gives back the string. */
  lemma {:induction false} JoinSplit(s: string, sep: char)
    ensures Join(Split(s, sep), sep) == s
  {
    if s != [] {
      var t := s[..|s| - 1];
      var c := s[|s| - 1];
      var prev := Split(t, sep);
      JoinSplit(t, sep);
      var parts := Split(s, sep);
      if c == sep {
        assert parts[..|parts| - 1] == prev;
      } else if |prev| == 1 {
        assert parts == [prev[0] + [c]];
      } else {
        assert parts[..|parts| - 1] == prev[..|prev| - 1];
        assert Join(prev, sep) == Join(prev[..|prev| - 1], sep) + [sep] + prev[|prev| - 1];
      }
      assert s == t + [c];
    }
  }

  /** A string without `sep` splits into itself alone. */
  lemma {:induction false} SplitNoSeparator(s: string, sep: char)
    requires sep !in s
    ensures Split(s, sep) == [s]
  {
    if s != [] {
      assert sep !in s[..|s| - 1];
      SplitNoSeparator(s[..|s| - 1], sep);
      assert s == s[..|s| - 1] + [s[|s| - 1]];
    }
  }

  /** A string with `sep` splits into at least two pieces. */
  lemma {:induction false} SplitWithSeparator(s: string, sep: char)
    requires sep in s
    ensures |Split(s, sep)| >= 2
  {
    var t := s[..|s| - 1];
    if s[|s| - 1] != sep {
      assert s == t + [s[|s| - 1]];
      assert sep in t;
      SplitWithSeparator(t, sep);
    }
  }

  /** The last piece of a split: the text after the last `sep`
      (Python `s.split(sep)[-1]`). */
  function LastPiece(s: string, sep: char): string
  {
    var parts := Split(s, sep);
    parts[|parts| - 1]
  }

  /** The text before the last `sep` (Python `sep.join(s.split(sep)[:-1])`). */
  function BeforeLastPiece(s: string, sep: char): string
  {
    var parts := Split(s, sep);
    Join(parts[..|parts| - 1], sep)
  }

  /** The last piece never holds `sep`; a string with `sep` is the text
      before the last `sep`, then `sep`, then the last piece; a string
      without `sep` is its own last piece and has nothing before it. */
  lemma LastPieceShape(s: string, sep: char)
    ensures sep !in LastPiece(s, sep)
    ensures sep in s ==> s == BeforeLastPiece(s, sep) + [sep] + LastPiece(s, sep)
    ensures sep !in s ==> LastPiece(s, sep) == s && BeforeLastPiece(s, sep) == ""
  {
    var parts := Split(s, sep);
    if sep in s {
      SplitWithSeparator(s, sep);
      JoinSplit(s, sep);
    } else {
      SplitNoSeparator(s, sep);
    }
  }

  /** Whatever follows the last `sep` is recovered by `LastPiece`. */
  lemma {:induction false} LastPieceAfter(p: string, sep: char, q: string)
    requires sep !in q
    ensures LastPiece(p + [sep] + q, sep) == q
  {
    if q == [] {
      assert (p + [sep])[..|p + [sep]| - 1] == p;
    } else {
      var q' := q[..|q| - 1];
      assert sep !in q';
      LastPieceAfter(p, sep, q');
      assert (p + [sep] + q)[..|p + [sep] + q| - 1] == p + [sep] + q';
      assert q == q' + [q[|q| - 1]];
    }
  }

  /** Splitting at the last `sep` is unique: two strings built as
      prefix, `sep`, sep-free suffix are equal only if prefixes and suffixes are. */
  lemma LastSeparatorUnique(p1: string, q1: string, p2: string, q2: string, sep: char)
    requires sep !in q1 && sep !in q2
    requires p1 + [sep] + q1 == p2 + [sep] + q2
    ensures p1 == p2 && q1 == q2
  {
    LastPieceAfter(p1, sep, q1);
    LastPieceAfter(p2, sep, q2);
    var s := p1 + [sep] + q1;
    assert p1 == s[..|p1|];
    assert p2 == s[..|p2|];
  }

  // ---------------------------------------------------------------------
  // Decimal rendering of natural numbers (JavaScript `${n}` for an index)

  function DigitChar(d: nat): char
    requires d < 10
  {
    ('0' as int + d) as char
  }

  function DigitValue(c: char): nat
  {
    if '0' <= c <= '9' then c as int - '0' as int else 0
  }

  /** The decimal numeral of `n`: non-empty digits only. */
  function NatToString(n: nat): (r: string)
    ensures |r| >= 1
    ensures forall i :: 0 <= i < |r| ==> '0' <= r[i] <= '9'
  {
    if n < 10 then [DigitChar(n)] else NatToString(n / 10) + [DigitChar(n % 10)]
  }

  /** The value of a string of decimal digits. */
  function ParseDigits(s: string): nat
  {
    if s == [] then 0 else 10 * ParseDigits(s[..|s| - 1]) + DigitValue(s[|s| - 1])
  }

  /** Reading a numeral back gives the number. */
  lemma {:induction false} ParseNatToString(n: nat)
    ensures ParseDigits(NatToString(n)) == n
  {
    if n >= 10 {
      ParseNatToString(n / 10);
      var r := NatToString(n);
      assert r[..|r| - 1] == NatToString(n / 10);
      assert DigitValue(r[|r| - 1]) == n % 10;
    }
  }

  /** Different numbers have different numerals. */
  lemma NatToStringInjective(m: nat, n: nat)
    requires m != n
    ensures NatToString(m) != NatToString(n)
  {
    ParseNatToString(m);
    ParseNatToString(n);
  }
}
