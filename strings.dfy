/**
  The parts of Go's `strings`, `strconv` and `fmt` packages that the bot
  relies on, stated over `string` = `seq<char>`:
  `strings.Contains`, `strings.Split` with a one-character separator,
  `strconv.Atoi` on a 64-bit platform, and the decimal rendering of `%d`.
*/
module Strings {
  import opened Wrappers

  // ---------------------------------------------------------------------
  // Character classes
  // ---------------------------------------------------------------------

  /** The Perl class `\s` of Go's regexp package: `[\t\n\f\r ]`. */
  predicate IsSpace(c: char) {
    c == '\t' || c == '\n' || c == '\U{000C}' || c == '\r' || c == ' '
  }

  predicate IsDigit(c: char) {
    '0' <= c <= '9'
  }

  predicate AllDigits(s: string) {
    forall i :: 0 <= i < |s| ==> IsDigit(s[i])
  }

  // ---------------------------------------------------------------------
  // strings.HasPrefix / strings.Contains
  // ---------------------------------------------------------------------

  predicate HasPrefix(s: string, prefix: string) {
    |prefix| <= |s| && s[..|prefix|] == prefix
  }

  /** `strings.Contains(s, sub)`: scans every start position of `s`. */
  predicate Contains(s: string, sub: string)
    decreases |s|
  {
    HasPrefix(s, sub) || (|s| > 0 && Contains(s[1..], sub))
  }

  /** `sub` occurs in `s` at position `i`. */
  predicate OccursAt(s: string, sub: string, i: int) {
    0 <= i <= |s| - |sub| && s[i..i + |sub|] == sub
  }

  /** The scan finds `sub` exactly when `sub` occurs at some position. */
  lemma {:induction false} ContainsIff(s: string, sub: string)
    ensures Contains(s, sub) <==> exists i :: OccursAt(s, sub, i)
    decreases |s|
  {
    if HasPrefix(s, sub) {
      assert OccursAt(s, sub, 0);
    } else if |s| > 0 {
      ContainsIff(s[1..], sub);
      if Contains(s[1..], sub) {
        var j :| OccursAt(s[1..], sub, j);
        assert s[1..][j..j + |sub|] == s[j + 1..j + 1 + |sub|];
        assert OccursAt(s, sub, j + 1);
      }
      if i :| OccursAt(s, sub, i) {
        assert i != 0;
        assert s[1..][i - 1..i - 1 + |sub|] == s[i..i + |sub|];
        assert OccursAt(s[1..], sub, i - 1);
      }
    }
  }

  /** The empty string occurs in every string, as in Go. */
  lemma ContainsEmpty(s: string)
    ensures Contains(s, "")
  {
    assert HasPrefix(s, "");
  }

  /** Whatever occurs in a part of a string occurs in the whole string. */
  lemma {:induction false} ContainsInfix(a: string, b: string, c: string, sub: string)
    requires Contains(b, sub)
    ensures Contains(a + b + c, sub)
  {
    ContainsIff(b, sub);
    var i :| OccursAt(b, sub, i);
    assert (a + b + c)[|a| + i..|a| + i + |sub|] == b[i..i + |sub|];
    assert OccursAt(a + b + c, sub, |a| + i);
    ContainsIff(a + b + c, sub);
  }

  /** A string without the character `c` does not contain it. */
  lemma {:induction false} NotContainsChar(s: string, c: char)
    requires c !in s
    ensures !Contains(s, [c])
  {
    forall i | 0 <= i <= |s| - 1
      ensures !OccursAt(s, [c], i)
    {
      assert s[i..i + 1][0] == s[i];
    }
    ContainsIff(s, [c]);
  }

  // ---------------------------------------------------------------------
  // strings.Split with a one-character separator, and its inverse Join
  // ---------------------------------------------------------------------

  /**
    `strings.Split(s, string(sep))`: the pieces of `s` between occurrences
    of `sep`; there is always one more piece than occurrences.
  */
  function Split(s: string, sep: char): (parts: seq<string>)
    ensures |parts| >= 1
    ensures |parts| == Count(s, sep) + 1
  {
    if |s| == 0 then [""]
    else
      var rest := Split(s[1..], sep);
      if s[0] == sep then [""] + rest
      else [[s[0]] + rest[0]] + rest[1..]
  }

  /** Number of occurrences of `c` in `s`. */
  function Count(s: string, c: char): nat {
    if |s| == 0 then 0 else (if s[0] == c then 1 else 0) + Count(s[1..], c)
  }

  /** `strings.Join(parts, string(sep))`. */
  function Join(parts: seq<string>, sep: char): string
    requires |parts| >= 1
  {
    if |parts| == 1 then parts[0] else parts[0] + [sep] + Join(parts[1..], sep)
  }

  /** No piece of a split contains the separator. */
  lemma {:induction false} SplitPiecesLackSeparator(s: string, sep: char)
    ensures forall p :: p in Split(s, sep) ==> sep !in p
  {
    if |s| > 0 {
      SplitPiecesLackSeparator(s[1..], sep);
    }
  }

  /** Joining the pieces of a split gives back the string. */
  lemma {:induction false} JoinSplit(s: string, sep: char)
    ensures Join(Split(s, sep), sep) == s
  {
    if |s| > 0 {
      var rest := Split(s[1..], sep);
      JoinSplit(s[1..], sep);
      if s[0] == sep {
        assert ([""] + rest)[1..] == rest;
      } else {
        var parts := [[s[0]] + rest[0]] + rest[1..];
        if |rest| == 1 {
          assert parts == [[s[0]] + rest[0]];
        } else {
          assert parts[1..] == rest[1..];
          assert Join(rest, sep) == rest[0] + [sep] + Join(rest[1..], sep);
        }
      }
    }
  }

  /** Splitting a join of separator-free pieces gives back the pieces. */
  lemma {:induction false} SplitJoin(parts: seq<string>, sep: char)
    requires |parts| >= 1
    requires forall p :: p in parts ==> sep !in p
    ensures Split(Join(parts, sep), sep) == parts
    decreases |parts|, |parts[0]|
  {
    var head := parts[0];
    if |head| == 0 {
      if |parts| > 1 {
        assert Join(parts, sep) == [sep] + Join(parts[1..], sep);
        assert ([sep] + Join(parts[1..], sep))[1..] == Join(parts[1..], sep);
        SplitJoin(parts[1..], sep);
      }
    } else {
      var shorter := [head[1..]] + parts[1..];
      forall p | p in shorter
        ensures sep !in p
      {
        if p == head[1..] {
          assert head in parts && sep !in head;
          assert head == [head[0]] + p;
        } else {
          assert p in parts[1..];
          assert parts == [head] + parts[1..];
        }
      }
      assert head[0] in parts[0];
      if |parts| == 1 {
        assert Join(shorter, sep) == head[1..];
      } else {
        assert shorter[1..] == parts[1..];
      }
      assert Join(parts, sep) == [head[0]] + Join(shorter, sep);
      assert Join(parts, sep)[1..] == Join(shorter, sep);
      SplitJoin(shorter, sep);
      assert [head[0]] + head[1..] == head;
      assert [head] + parts[1..] == parts;
    }
  }

  /** The first piece of a split is the text before the first separator. */
  lemma {:induction false} SplitFirst(a: string, sep: char, b: string)
    requires sep !in a
    ensures Split(a + [sep] + b, sep)[0] == a
  {
    if |a| > 0 {
      assert (a + [sep] + b)[1..] == a[1..] + [sep] + b;
      SplitFirst(a[1..], sep, b);
      assert [a[0]] + a[1..] == a;
    } else {
      assert a + [sep] + b == [sep] + b;
    }
  }

  // ---------------------------------------------------------------------
  // strconv.Atoi and the `%d` verb
  // ---------------------------------------------------------------------

  const MinInt64: int := -0x8000_0000_0000_0000
  const MaxInt64: int := 0x7fff_ffff_ffff_ffff

  /** Go's `int` on a 64-bit platform. */
  predicate IsInt64(n: int) {
    MinInt64 <= n <= MaxInt64
  }

  /** Go's `a - b` on 64-bit `int`: two's complement wrap-around. */
  function Sub64(a: int, b: int): (r: int)
    ensures IsInt64(r)
    ensures IsInt64(a - b) ==> r == a - b
    ensures (r - (a - b)) % 0x1_0000_0000_0000_0000 == 0
  {
    (a - b - MinInt64) % 0x1_0000_0000_0000_0000 + MinInt64
  }

  /** The value of a run of decimal digits, most significant first. */
  function DigitsValue(ds: string): nat
    requires AllDigits(ds)
  {
    if |ds| == 0 then 0
    else DigitsValue(ds[..|ds| - 1]) * 10 + (ds[|ds| - 1] as int - '0' as int)
  }

  /**
    `strconv.Atoi(s)`: an optional `+` or `-`, then one or more ASCII
    digits, the value within the 64-bit range; anything else is an error
    (`None`; the syntax/range distinction of the error value is not kept).
  */
  function Atoi(s: string): (r: Option<int>)
    ensures r.Some? ==> IsInt64(r.value)
  {
    var signed := |s| > 0 && (s[0] == '+' || s[0] == '-');
    var ds := if signed then s[1..] else s;
    if |ds| == 0 || !AllDigits(ds) then None
    else
      var v: int := if signed && s[0] == '-' then -(DigitsValue(ds) as int) else DigitsValue(ds);
      if IsInt64(v) then Some(v) else None
  }

  /** What `strconv.Atoi` accepts: a non-empty run of digits, optionally after one sign. */
  lemma AtoiSyntax(s: string)
    requires Atoi(s).Some?
    ensures |s| >= 1 && (IsDigit(s[0]) || (|s| >= 2 && (s[0] == '+' || s[0] == '-')))
    ensures forall i :: 1 <= i < |s| ==> IsDigit(s[i])
  {
    if s[0] == '+' || s[0] == '-' {
      assert forall i :: 1 <= i < |s| ==> s[i] == s[1..][i - 1];
    }
  }

  /**
    The three accepted shapes: a digit run `ds` alone or after `+` denotes
    `DigitsValue(ds)`, after `-` its negation; each is a range error when
    the value does not fit 64 bits.
  */
  lemma AtoiDigits(ds: string)
    requires |ds| >= 1 && AllDigits(ds)
    ensures Atoi(ds) == if IsInt64(DigitsValue(ds)) then Some(DigitsValue(ds) as int) else None
    ensures Atoi("+" + ds) == if IsInt64(DigitsValue(ds)) then Some(DigitsValue(ds) as int) else None
    ensures Atoi("-" + ds) == if IsInt64(-(DigitsValue(ds) as int)) then Some(-(DigitsValue(ds) as int)) else None
  {
    assert IsDigit(ds[0]);
    var plus, minus := "+" + ds, "-" + ds;
    assert plus[0] == '+' && plus[1..] == ds;
    assert minus[0] == '-' && minus[1..] == ds;
  }

  function DigitChar(d: nat): char
    requires d < 10
  {
    ('0' as int + d) as char
  }

  /** Decimal digits of a natural number, as `%d` prints it. */
  function FormatNat(n: nat): string
  {
    if n < 10 then [DigitChar(n)] else FormatNat(n / 10) + [DigitChar(n % 10)]
  }

  /** `fmt.Sprintf("%d", n)`. */
  function FormatInt(n: int): string
  {
    if n < 0 then "-" + FormatNat(-n) else FormatNat(n)
  }

  /** `FormatNat` gives a non-empty run of digits whose value is `n`. */
  lemma {:induction false} FormatNatDigits(n: nat)
    ensures |FormatNat(n)| >= 1 && AllDigits(FormatNat(n))
    ensures DigitsValue(FormatNat(n)) == n
  {
    if n >= 10 {
      FormatNatDigits(n / 10);
      var s := FormatNat(n);
      assert s[..|s| - 1] == FormatNat(n / 10);
    }
  }

  /**
    Printing with `%d` and reading back with `strconv.Atoi` is the identity
    on 64-bit values and a range error on every other value.
  */
  lemma AtoiFormatInt(n: int)
    ensures Atoi(FormatInt(n)) == if IsInt64(n) then Some(n) else None
  {
    var s := FormatInt(n);
    if n < 0 {
      var d := FormatNat(-n);
      FormatNatDigits(-n);
      assert s == "-" + d;
      assert s[0] == '-' && s[1..] == d;
      assert DigitsValue(s[1..]) == -n;
    } else {
      var d := FormatNat(n);
      FormatNatDigits(n);
      assert s == d;
      assert IsDigit(s[0]) && s[0] != '+' && s[0] != '-';
      assert DigitsValue(s) == n;
    }
  }

  /** `%d` never prints a character other than a minus sign or digits. */
  lemma FormatIntAlphabet(n: int)
    ensures forall i :: 0 <= i < |FormatInt(n)| ==> FormatInt(n)[i] == '-' || IsDigit(FormatInt(n)[i])
  {
    var s := FormatInt(n);
    if n < 0 {
      var d := FormatNat(-n);
      FormatNatDigits(-n);
      assert s == "-" + d;
      forall i | 0 <= i < |s|
        ensures s[i] == '-' || IsDigit(s[i])
      {
        if i > 0 {
          assert s[i] == d[i - 1];
        }
      }
    } else {
      FormatNatDigits(n);
      assert s == FormatNat(n);
    }
  }
}
