/**
 * The parts of java.lang.String and java.lang.Integer that the modelled code relies on,
 * restricted to what the code uses: `split` with a one-character pattern that is not a
 * regular-expression metacharacter (Java's fast path, limit 0), `Integer.parseInt` in
 * radix 10 over ASCII digits, ASCII `toLowerCase`, `contains` and `equalsIgnoreCase`.
 */
module JavaLang {
  import opened Results

  /** Bounds of a Java `int`. */
  const MinInt: int := -0x8000_0000
  const MaxInt: int := 0x7fff_ffff

  // ---------------------------------------------------------------------------
  // String.split(c)

  /** Joins non-empty `parts` with the separator `c` between consecutive parts. */
  function Join(parts: seq<string>, c: char): string
    requires |parts| >= 1
  {
    if |parts| == 1 then parts[0] else parts[0] + [c] + Join(parts[1..], c)
  }

  /** Every piece of `s` between occurrences of `c`, empty pieces included. */
  function Pieces(s: string, c: char): (r: seq<string>)
    ensures |r| >= 1
  {
    if s == [] then [""]
    else
      var rest := Pieces(s[1..], c);
      if s[0] == c then [""] + rest else [[s[0]] + rest[0]] + rest[1..]
  }

  /** Joining the pieces with the separator gives back the string. */
  lemma {:induction false} JoinPieces(s: string, c: char)
    ensures Join(Pieces(s, c), c) == s
  {
    if s != [] {
      JoinPieces(s[1..], c);
      var rest := Pieces(s[1..], c);
      var r := Pieces(s, c);
      if s[0] == c {
        assert r[1..] == rest;
      } else if |rest| > 1 {
        assert r[1..] == rest[1..];
      }
    }
  }

  /** No piece contains the separator. */
  lemma {:induction false} PiecesLackSeparator(s: string, c: char)
    ensures forall i :: 0 <= i < |Pieces(s, c)| ==> c !in Pieces(s, c)[i]
  {
    if s != [] {
      PiecesLackSeparator(s[1..], c);
    }
  }

  /** `ps` without its trailing empty strings. */
  function DropTrailingEmpty(ps: seq<string>): seq<string>
  {
    if ps == [] || ps[|ps| - 1] != "" then ps else DropTrailingEmpty(ps[..|ps| - 1])
  }

  /** DropTrailingEmpty keeps a prefix, removes only empty strings, and leaves no empty string last. */
  lemma {:induction false} DropTrailingEmptyShape(ps: seq<string>)
    ensures DropTrailingEmpty(ps) <= ps
    ensures forall i :: |DropTrailingEmpty(ps)| <= i < |ps| ==> ps[i] == ""
    ensures DropTrailingEmpty(ps) == [] || DropTrailingEmpty(ps)[|DropTrailingEmpty(ps)| - 1] != ""
  {
    if ps != [] && ps[|ps| - 1] == "" {
      DropTrailingEmptyShape(ps[..|ps| - 1]);
    }
  }

  /**
   * Java's `s.split(c)`: the whole string when `c` does not occur, otherwise the pieces
   * between occurrences of `c` with trailing empty pieces removed.
   */
  function Split(s: string, c: char): seq<string>
  {
    if c !in s then [s] else DropTrailingEmpty(Pieces(s, c))
  }

  /** No element of a split contains the separator, and a string without it splits into itself. */
  lemma SplitShape(s: string, c: char)
    ensures forall i :: 0 <= i < |Split(s, c)| ==> c !in Split(s, c)[i]
    ensures c !in s ==> Split(s, c) == [s]
  {
    if c in s {
      PiecesLackSeparator(s, c);
      DropTrailingEmptyShape(Pieces(s, c));
    }
  }

  lemma {:induction false} JoinContainsSeparator(parts: seq<string>, c: char)
    requires |parts| >= 2
    ensures c in Join(parts, c)
  {
    assert Join(parts, c)[|parts[0]|] == c;
  }

  /** A string without `c` has a single piece. */
  lemma {:induction false} PiecesWithout(s: string, c: char)
    requires c !in s
    ensures Pieces(s, c) == [s]
  {
    if s != [] {
      PiecesWithout(s[1..], c);
      assert [s[0]] + s[1..] == s;
    }
  }

  /** A leading piece followed by the separator splits off exactly. */
  lemma {:induction false} PiecesCons(a: string, b: string, c: char)
    requires c !in a
    ensures Pieces(a + [c] + b, c) == [a] + Pieces(b, c)
  {
    if a == [] {
      assert (a + [c] + b)[1..] == b;
    } else {
      PiecesCons(a[1..], b, c);
      assert (a + [c] + b)[1..] == a[1..] + [c] + b;
      assert [a[0]] + a[1..] == a;
    }
  }

  /** Pieces undoes Join whenever no part contains the separator. */
  lemma {:induction false} PiecesJoin(parts: seq<string>, c: char)
    requires |parts| >= 1
    requires forall i :: 0 <= i < |parts| ==> c !in parts[i]
    ensures Pieces(Join(parts, c), c) == parts
  {
    if |parts| == 1 {
      PiecesWithout(parts[0], c);
    } else {
      PiecesJoin(parts[1..], c);
      PiecesCons(parts[0], Join(parts[1..], c), c);
    }
  }

  /**
   * Split undoes Join when no part contains the separator and either there is a single
   * part or the last part is not empty (Java drops trailing empty pieces).
   */
  lemma SplitJoin(parts: seq<string>, c: char)
    requires |parts| >= 1
    requires forall i :: 0 <= i < |parts| ==> c !in parts[i]
    requires |parts| == 1 || parts[|parts| - 1] != ""
    ensures Split(Join(parts, c), c) == parts
  {
    if |parts| >= 2 {
      JoinContainsSeparator(parts, c);
      PiecesJoin(parts, c);
      DropTrailingEmptyShape(parts);
    }
  }

  /**
   * Lines terminated by the separator, as a report whose every line ends in a newline:
   * the empty piece after the last separator is dropped.
   */
  lemma SplitTerminated(parts: seq<string>, c: char)
    requires |parts| >= 1
    requires forall i :: 0 <= i < |parts| ==> c !in parts[i]
    requires parts[|parts| - 1] != ""
    ensures Split(Join(parts + [""], c), c) == parts
  {
    var all := parts + [""];
    JoinContainsSeparator(all, c);
    PiecesJoin(all, c);
    assert all[..|all| - 1] == parts;
    assert DropTrailingEmpty(all) == DropTrailingEmpty(parts) == parts;
  }

  /** A character other than the separator occurs in a join only if it occurs in a part. */
  lemma {:induction false} JoinLacks(parts: seq<string>, c: char, d: char)
    requires |parts| >= 1 && d != c
    requires forall i :: 0 <= i < |parts| ==> d !in parts[i]
    ensures d !in Join(parts, c)
  {
    if |parts| > 1 {
      JoinLacks(parts[1..], c, d);
    }
  }

  /** A separator directly after a separator-free prefix: the first element of the split is that prefix, or the split is empty. */
  lemma SplitAfterPrefix(a: string, b: string, c: char)
    requires c !in a
    ensures var r := Split(a + [c] + b, c); (r == [] && a == []) || (r != [] && r[0] == a)
  {
    var s := a + [c] + b;
    assert s[|a|] == c;
    PiecesCons(a, b, c);
    var ps := Pieces(s, c);
    assert Split(s, c) == DropTrailingEmpty(ps);
    assert ps[0] == a;
    DropTrailingEmptyShape(ps);
  }

  // ---------------------------------------------------------------------------
  // Integer.parseInt(s), radix 10, ASCII digits

  predicate IsDigit(ch: char) { '0' <= ch <= '9' }

  predicate AllDigits(s: string) { forall i :: 0 <= i < |s| ==> IsDigit(s[i]) }

  function DigitValue(ch: char): (d: nat)
    requires IsDigit(ch)
    ensures d < 10
  {
    ch as int - '0' as int
  }

  function DigitChar(d: nat): (ch: char)
    requires d < 10
    ensures IsDigit(ch) && DigitValue(ch) == d
  {
    ('0' as int + d) as char
  }

  /** The value of a string of decimal digits, most significant first. */
  function DigitsValue(ds: string): nat
    requires AllDigits(ds)
  {
    if ds == [] then 0 else DigitsValue(ds[..|ds| - 1]) * 10 + DigitValue(ds[|ds| - 1])
  }

  /** The decimal rendering of `n`, as `Integer.toString` writes a non-negative int. */
  function Decimal(n: nat): (r: string)
    ensures |r| >= 1 && AllDigits(r)
  {
    if n < 10 then [DigitChar(n)] else Decimal(n / 10) + [DigitChar(n % 10)]
  }

  /**
   * `Integer.parseInt(s)`: an optional '+' or '-' followed by at least one decimal digit,
   * with a value that fits a Java `int`; anything else throws NumberFormatException (None).
   */
  function ParseInt(s: string): Option<int>
  {
    if s == [] then None
    else if s[0] == '-' || s[0] == '+' then
      if |s| == 1 || !AllDigits(s[1..]) then None
      else
        var v: int := if s[0] == '-' then 0 - (DigitsValue(s[1..]) as int) else DigitsValue(s[1..]);
        if MinInt <= v <= MaxInt then Some(v) else None
    else if !AllDigits(s) then None
    else
      var v := DigitsValue(s);
      if v <= MaxInt then Some(v) else None
  }

  /** What parseInt accepts: an int, written as a sign or digit followed by digits only. */
  lemma ParseIntAccepts(s: string)
    requires ParseInt(s).Some?
    ensures MinInt <= ParseInt(s).value <= MaxInt
    ensures |s| >= 1 && (IsDigit(s[0]) || s[0] == '+' || s[0] == '-') && AllDigits(s[1..])
  {
  }

  lemma {:induction false} DecimalValue(n: nat)
    ensures DigitsValue(Decimal(n)) == n
  {
    if n >= 10 {
      DecimalValue(n / 10);
      var r := Decimal(n);
      assert r[..|r| - 1] == Decimal(n / 10);
    }
  }

  /** parseInt reads back every non-negative int that Integer.toString writes. */
  lemma ParseDecimal(n: nat)
    requires n <= MaxInt
    ensures ParseInt(Decimal(n)) == Some(n)
  {
    DecimalValue(n);
  }

  // ---------------------------------------------------------------------------
  // toLowerCase, contains, equalsIgnoreCase (ASCII letters only)

  function LowerChar(ch: char): (r: char)
    ensures 'A' <= ch <= 'Z' ==> r as int == ch as int + 32
    ensures !('A' <= ch <= 'Z') ==> r == ch
  {
    if 'A' <= ch <= 'Z' then (ch as int + 32) as char else ch
  }

  /** `s.toLowerCase()` for ASCII upper-case letters; every other character is kept. */
  function Lower(s: string): (r: string)
    ensures |r| == |s|
    ensures forall i :: 0 <= i < |s| ==> r[i] == LowerChar(s[i])
  {
    seq(|s|, i requires 0 <= i < |s| => LowerChar(s[i]))
  }

  /** `sub` occurs in `s` starting at position `i`. */
  predicate OccursAt(s: string, sub: string, i: nat)
  {
    i + |sub| <= |s| && s[i..i + |sub|] == sub
  }

  /** `s.contains(sub)`: `sub` occurs at some position of `s`. */
  predicate Contains(s: string, sub: string)
  {
    exists i: nat :: i <= |s| && OccursAt(s, sub, i)
  }

  /** `a.equalsIgnoreCase(b)`: same length and equal letters after folding case. */
  predicate EqualsIgnoreCase(a: string, b: string)
  {
    |a| == |b| && forall i :: 0 <= i < |a| ==> LowerChar(a[i]) == LowerChar(b[i])
  }

  lemma LowerIdempotent(s: string)
    ensures Lower(Lower(s)) == Lower(s)
  {
  }

  /** equalsIgnoreCase is equality after lower-casing both sides. */
  lemma EqualsIgnoreCaseIsLowerEquality(a: string, b: string)
    ensures EqualsIgnoreCase(a, b) <==> Lower(a) == Lower(b)
  {
    if Lower(a) == Lower(b) {
      assert |a| == |b|;
      forall i | 0 <= i < |a| ensures LowerChar(a[i]) == LowerChar(b[i]) {
        assert Lower(a)[i] == Lower(b)[i];
      }
    }
  }

  /** An occurrence of `sub` in `s` puts each character of `sub` in `s`. */
  lemma ContainsChar(s: string, sub: string, k: nat)
    requires k < |sub| && Contains(s, sub)
    ensures sub[k] in s
  {
    var i: nat :| i <= |s| && OccursAt(s, sub, i);
    assert s[i..i + |sub|][k] == sub[k];
  }
}
