/** Strings as the source compares, splits, parses and prints them. */
module Text {
  import opened Outcomes

  /* ---------------------------------------------------------------------
     Lexicographic order. Python compares `str` values code point by code
     point, and SQLite's default BINARY collation compares TEXT the same way
     for the ASCII dates stored in the measurement table.
     --------------------------------------------------------------------- */

  predicate LexLe(a: string, b: string)
    decreases |a|
  {
    a == [] || (b != [] && (a[0] < b[0] || (a[0] == b[0] && LexLe(a[1..], b[1..]))))
  }

  predicate LexLt(a: string, b: string)
  {
    LexLe(a, b) && a != b
  }

  lemma {:induction false} LexLeReflexive(a: string)
    ensures LexLe(a, a)
    decreases |a|
  {
    if a != [] {
      LexLeReflexive(a[1..]);
    }
  }

  lemma {:induction false} LexLeAntisymmetric(a: string, b: string)
    requires LexLe(a, b) && LexLe(b, a)
    ensures a == b
    decreases |a|
  {
    if a != [] {
      LexLeAntisymmetric(a[1..], b[1..]);
      assert a == [a[0]] + a[1..];
      assert b == [b[0]] + b[1..];
    }
  }

  lemma {:induction false} LexLeTransitive(a: string, b: string, c: string)
    requires LexLe(a, b) && LexLe(b, c)
    ensures LexLe(a, c)
    decreases |a|
  {
    if a != [] && a[0] == b[0] && b[0] == c[0] {
      LexLeTransitive(a[1..], b[1..], c[1..]);
    }
  }

  lemma {:induction false} LexLeTotal(a: string, b: string)
    ensures LexLe(a, b) || LexLe(b, a)
    decreases |a|
  {
    if a != [] && b != [] && a[0] == b[0] {
      LexLeTotal(a[1..], b[1..]);
    }
  }

  lemma LexLtTransitive(a: string, b: string, c: string)
    requires LexLt(a, b) && LexLe(b, c)
    ensures LexLt(a, c)
  {
    LexLeTransitive(a, b, c);
    if a == c {
      LexLeAntisymmetric(a, b);
    }
  }

  /** Comparing two concatenations whose first parts have equal length
      compares the first parts, and the second parts only on a tie. */
  lemma {:induction false} LexLeAppend(x1: string, x2: string, y1: string, y2: string)
    requires |x1| == |y1|
    ensures LexLe(x1 + x2, y1 + y2) <==> LexLt(x1, y1) || (x1 == y1 && LexLe(x2, y2))
    decreases |x1|
  {
    if x1 == [] {
      assert x1 + x2 == x2 && y1 + y2 == y2;
    } else {
      assert (x1 + x2)[0] == x1[0] && (x1 + x2)[1..] == x1[1..] + x2;
      assert (y1 + y2)[0] == y1[0] && (y1 + y2)[1..] == y1[1..] + y2;
      LexLeAppend(x1[1..], x2, y1[1..], y2);
      assert x1 == [x1[0]] + x1[1..] && y1 == [y1[0]] + y1[1..];
    }
  }

  /* ---------------------------------------------------------------------
     `str.split(sep)`: the fields between the separators, empty ones
     included, so there is always at least one field.
     --------------------------------------------------------------------- */

  function Split(s: string, sep: char): (fields: seq<string>)
    ensures |fields| >= 1
    decreases |s|
  {
    if s == [] then [[]]
    else
      var rest := Split(s[1..], sep);
      if s[0] == sep then [[]] + rest
      else [[s[0]] + rest[0]] + rest[1..]
  }

  /** `sep.join(fields)`, the inverse of Split. */
  function Join(fields: seq<string>, sep: char): string
    requires |fields| >= 1
    decreases |fields|
  {
    if |fields| == 1 then fields[0] else fields[0] + [sep] + Join(fields[1..], sep)
  }

  /** Joining the fields of a split gives back the string, and no field
      contains the separator. */
  lemma {:induction false} JoinSplit(s: string, sep: char)
    ensures Join(Split(s, sep), sep) == s
    ensures forall i :: 0 <= i < |Split(s, sep)| ==> sep !in Split(s, sep)[i]
    decreases |s|
  {
    if s != [] {
      var rest := Split(s[1..], sep);
      JoinSplit(s[1..], sep);
      if s[0] == sep {
        assert Split(s, sep)[1..] == rest;
        assert s == [] + [sep] + s[1..];
      } else {
        var fields := Split(s, sep);
        assert fields[1..] == rest[1..];
        assert forall i :: 1 <= i < |fields| ==> fields[i] == rest[i];
        if |rest| == 1 {
          assert s == [s[0]] + rest[0];
        } else {
          assert Join(rest, sep) == rest[0] + [sep] + Join(rest[1..], sep);
          assert s == [s[0]] + rest[0] + [sep] + Join(rest[1..], sep);
        }
      }
    }
  }

  /** A field free of the separator followed by the separator is split off
      as the first field. */
  lemma {:induction false} SplitAfterField(x: string, sep: char, y: string)
    requires sep !in x
    ensures Split(x + [sep] + y, sep) == [x] + Split(y, sep)
    decreases |x|
  {
    if x == [] {
      assert x + [sep] + y == [sep] + y;
      assert ([sep] + y)[1..] == y;
    } else {
      SplitAfterField(x[1..], sep, y);
      assert (x + [sep] + y)[1..] == x[1..] + [sep] + y;
      assert x == [x[0]] + x[1..];
    }
  }

  lemma {:induction false} SplitWithoutSeparator(x: string, sep: char)
    requires sep !in x
    ensures Split(x, sep) == [x]
    decreases |x|
  {
    if x != [] {
      SplitWithoutSeparator(x[1..], sep);
      assert x == [x[0]] + x[1..];
    }
  }

  /** Splitting a join of separator-free fields gives back the fields. */
  lemma {:induction false} SplitJoin(fields: seq<string>, sep: char)
    requires |fields| >= 1
    requires forall i :: 0 <= i < |fields| ==> sep !in fields[i]
    ensures Split(Join(fields, sep), sep) == fields
    decreases |fields|
  {
    if |fields| == 1 {
      SplitWithoutSeparator(fields[0], sep);
    } else {
      SplitJoin(fields[1..], sep);
      SplitAfterField(fields[0], sep, Join(fields[1..], sep));
      assert fields == [fields[0]] + fields[1..];
    }
  }

  /* ---------------------------------------------------------------------
     Decimal numerals: `int()` of a field and zero-padded printing.
     --------------------------------------------------------------------- */

  predicate IsDigit(c: char)
  {
    '0' <= c <= '9'
  }

  predicate AllDigits(s: string)
  {
    forall i :: 0 <= i < |s| ==> IsDigit(s[i])
  }

  function DigitValue(c: char): nat
    requires IsDigit(c)
  {
    c as int - '0' as int
  }

  function DigitChar(n: nat): char
    requires n < 10
  {
    (n + '0' as int) as char
  }

  /** The value of a decimal numeral, most significant digit first. */
  function Value(s: string): nat
    requires AllDigits(s)
    decreases |s|
  {
    if s == [] then 0 else 10 * Value(s[..|s| - 1]) + DigitValue(s[|s| - 1])
  }

  /** The most digits `int()` converts from a decimal string: CPython's
      default integer string conversion length limit. */
  const MaxIntDigits := 4300

  /** `int(s)` on a field; anything but a non-empty run of ASCII digits,
      or a run longer than the conversion limit, is a ValueError. */
  function ParseInt(s: string): Option<nat>
  {
    if s != [] && |s| <= MaxIntDigits && AllDigits(s) then Some(Value(s)) else None
  }

  function Pow10(n: nat): nat
  {
    if n == 0 then 1 else 10 * Pow10(n - 1)
  }

  /** `n` printed with exactly `width` digits, zero-padded on the left
      (the `%04d` and `%02d` of an ISO date). */
  function Pad(n: nat, width: nat): (s: string)
    ensures |s| == width && AllDigits(s)
  {
    if width == 0 then [] else Pad(n / 10, width - 1) + [DigitChar(n % 10)]
  }

  /** Reading back a padded numeral gives the number, when it fits. */
  lemma {:induction false} ValueOfPad(n: nat, width: nat)
    requires n < Pow10(width)
    ensures Value(Pad(n, width)) == n
  {
    if width > 0 {
      var s := Pad(n, width);
      assert s[..|s| - 1] == Pad(n / 10, width - 1);
      ValueOfPad(n / 10, width - 1);
    }
  }

  /** `int()` reads back a padded numeral as the number, for widths the
      conversion limit admits. */
  lemma ParseOfPad(n: nat, width: nat)
    requires 1 <= width <= MaxIntDigits && n < Pow10(width)
    ensures ParseInt(Pad(n, width)) == Some(n)
  {
    ValueOfPad(n, width);
  }

  /** Padding the value of a numeral to its own width gives the numeral. */
  lemma {:induction false} PadOfValue(s: string)
    requires AllDigits(s)
    ensures Value(s) < Pow10(|s|)
    ensures Pad(Value(s), |s|) == s
    decreases |s|
  {
    if s != [] {
      var p := s[..|s| - 1];
      PadOfValue(p);
      var v := Value(s);
      assert v / 10 == Value(p) && v % 10 == DigitValue(s[|s| - 1]);
      assert DigitChar(DigitValue(s[|s| - 1])) == s[|s| - 1];
      assert s == p + [s[|s| - 1]];
    }
  }

  /** On numerals of one width, string order is numeric order, and string
      equality is numeric equality. */
  lemma NumeralOrder(x: string, y: string)
    requires AllDigits(x) && AllDigits(y) && |x| == |y|
    ensures LexLe(x, y) <==> Value(x) <= Value(y)
    ensures x == y <==> Value(x) == Value(y)
  {
    NumeralLe(x, y);
    NumeralEquality(x, y);
  }

  /** Numerals of one width are equal exactly when their values are. */
  lemma NumeralEquality(x: string, y: string)
    requires AllDigits(x) && AllDigits(y) && |x| == |y|
    ensures x == y <==> Value(x) == Value(y)
  {
    PadOfValue(x);
    PadOfValue(y);
  }

  lemma {:induction false} NumeralLe(x: string, y: string)
    requires AllDigits(x) && AllDigits(y) && |x| == |y|
    ensures LexLe(x, y) <==> Value(x) <= Value(y)
    decreases |x|
  {
    if x != [] {
      var n := |x| - 1;
      var p, q := x[..n], y[..n];
      NumeralLe(p, q);
      NumeralEquality(p, q);
      LexLeAppend(p, [x[n]], q, [y[n]]);
      assert x == p + [x[n]] && y == q + [y[n]];
      assert LexLe([x[n]], [y[n]]) <==> x[n] <= y[n];
      DigitStep(Value(p), Value(q), DigitValue(x[n]), DigitValue(y[n]));
    }
  }

  /** Appending one digit to each of two numbers keeps their order, with
      the digits deciding a tie. */
  lemma DigitStep(a: nat, b: nat, da: nat, db: nat)
    requires da < 10 && db < 10
    ensures 10 * a + da <= 10 * b + db <==> a < b || (a == b && da <= db)
  {
  }

  /** On padded numbers of one width, string order is numeric order. */
  lemma PadOrder(m: nat, n: nat, width: nat)
    requires m < Pow10(width) && n < Pow10(width)
    ensures LexLe(Pad(m, width), Pad(n, width)) <==> m <= n
    ensures Pad(m, width) == Pad(n, width) <==> m == n
  {
    ValueOfPad(m, width);
    ValueOfPad(n, width);
    NumeralOrder(Pad(m, width), Pad(n, width));
  }
}
