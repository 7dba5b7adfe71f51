/** The pieces of Python's `str` and `None` that the recipe normaliser,
    the alphabet sweep and the result list rely on: whitespace and
    `str.strip()`, `str.replace("\r\n", "\n")`, the code-point order of
    `str.__lt__`, and the decimal rendering of an `int` in an f-string. */
module PyText {

  /** A JSON value that is either a string or `null` (Python `None`). */
  datatype Option<T> = None | Some(value: T)

  // ---------------------------------------------------------------------------
  // Whitespace and str.strip()

  /** Python's `str.isspace()` for one character: the code points CPython
      treats as whitespace (bidirectional class WS, B or S, or category Zs). */
  predicate IsSpace(c: char)
  {
    var n := c as int;
    (9 <= n <= 13) || (28 <= n <= 32) || n == 0x85 || n == 0xA0 || n == 0x1680
    || (0x2000 <= n <= 0x200A) || n == 0x2028 || n == 0x2029 || n == 0x202F
    || n == 0x205F || n == 0x3000
  }

  /** `s.lstrip()`: drops the leading whitespace and keeps the rest. */
  function StripStart(s: string): string
  {
    if s != [] && IsSpace(s[0]) then StripStart(s[1..]) else s
  }

  /** `s.rstrip()`: drops the trailing whitespace and keeps the rest. */
  function StripEnd(s: string): string
  {
    if s != [] && IsSpace(s[|s| - 1]) then StripEnd(s[..|s| - 1]) else s
  }

  /** `s.strip()`: the text between the leading and the trailing whitespace. */
  function Strip(s: string): string
  {
    StripEnd(StripStart(s))
  }

  /** `lstrip` removes a prefix made only of whitespace and stops at the
      first character that is not whitespace. */
  lemma {:induction false} StripStartShape(s: string)
    ensures var r := StripStart(s);
      && |r| <= |s| && r == s[|s| - |r|..]
      && (forall k :: 0 <= k < |s| - |r| ==> IsSpace(s[k]))
      && (r != [] ==> !IsSpace(r[0]))
  {
    if s != [] && IsSpace(s[0]) {
      var t, r := s[1..], StripStart(s[1..]);
      StripStartShape(t);
      assert StripStart(s) == r;
      assert t[|t| - |r|..] == s[|s| - |r|..];
      forall k | 0 <= k < |s| - |r| ensures IsSpace(s[k]) {
        if k > 0 {
          assert s[k] == t[k - 1];
        }
      }
    }
  }

  /** `rstrip` removes a suffix made only of whitespace and stops at the
      last character that is not whitespace. */
  lemma {:induction false} StripEndShape(s: string)
    ensures var r := StripEnd(s);
      && |r| <= |s| && r == s[..|r|]
      && (forall k :: |r| <= k < |s| ==> IsSpace(s[k]))
      && (r != [] ==> !IsSpace(r[|r| - 1]))
  {
    if s != [] && IsSpace(s[|s| - 1]) {
      var t, r := s[..|s| - 1], StripEnd(s[..|s| - 1]);
      StripEndShape(t);
      assert StripEnd(s) == r;
      assert t[..|r|] == s[..|r|];
      forall k | |r| <= k < |s| ensures IsSpace(s[k]) {
        if k < |s| - 1 {
          assert s[k] == t[k];
        }
      }
    }
  }

  /** `s.strip()` is empty exactly when `s` is all whitespace, and otherwise
      starts and ends with a character that is not whitespace. */
  lemma StripShape(s: string)
    ensures Strip(s) == [] <==> IsBlank(s)
    ensures Strip(s) != [] ==> !IsSpace(Strip(s)[0]) && !IsSpace(Strip(s)[|Strip(s)| - 1])
    ensures |Strip(s)| <= |s|
    ensures exists i, j :: 0 <= i <= j <= |s| && Strip(s) == s[i..j] && IsBlank(s[..i]) && IsBlank(s[j..])
  {
    StripStartShape(s);
    StripEndShape(StripStart(s));
    var t := StripStart(s);
    var i := |s| - |t|;
    var j := i + |Strip(s)|;
    assert t == s[i..];
    assert Strip(s) == t[..|Strip(s)|] == s[i..j];
    assert IsBlank(s[..i]) by {
      forall k | 0 <= k < i ensures IsSpace(s[..i][k]) {
        assert s[..i][k] == s[k];
      }
    }
    assert IsBlank(s[j..]) by {
      forall k | 0 <= k < |s| - j ensures IsSpace(s[j..][k]) {
        assert s[j..][k] == t[|Strip(s)| + k];
      }
    }
  }

  /** Every character of `s` is whitespace, which by `StripShape` is
      exactly when `s.strip()` is empty. */
  predicate IsBlank(s: string)
  {
    forall k :: 0 <= k < |s| ==> IsSpace(s[k])
  }

  /** Python's `v and v.strip()` on a value that is a string or `None`:
      true for a string whose stripped form is non-empty, that is, one that
      holds a non-whitespace character. (An empty string is all whitespace
      trivially, so the truth test of `v` itself adds nothing once `v` is a
      string.) */
  predicate NonBlank(v: Option<string>)
  {
    v.Some? && !IsBlank(v.value)
  }

  lemma NonBlankIsStripNonEmpty(v: Option<string>)
    ensures NonBlank(v) <==> v.Some? && Strip(v.value) != []
  {
    if v.Some? {
      StripShape(v.value);
    }
  }

  // ---------------------------------------------------------------------------
  // str.replace("\r\n", "\n")

  /** `s.replace("\r\n", "\n")`: scans left to right and replaces each
      non-overlapping occurrence of CR LF by a single LF. */
  function ReplaceCrlf(s: string): string
  {
    if |s| < 2 then s
    else if s[0] == '\r' && s[1] == '\n' then "\n" + ReplaceCrlf(s[2..])
    else [s[0]] + ReplaceCrlf(s[1..])
  }

  /** `s.count("\r\n")`: the number of replacements `ReplaceCrlf` makes. */
  function CountCrlf(s: string): nat
  {
    if |s| < 2 then 0
    else if s[0] == '\r' && s[1] == '\n' then 1 + CountCrlf(s[2..])
    else CountCrlf(s[1..])
  }

  predicate HasCrlf(s: string)
  {
    exists i :: 0 <= i < |s| - 1 && s[i] == '\r' && s[i + 1] == '\n'
  }

  /** Each replacement shortens the text by exactly one character. */
  lemma {:induction false} ReplaceCrlfLength(s: string)
    ensures |ReplaceCrlf(s)| == |s| - CountCrlf(s)
  {
    if |s| >= 2 {
      if s[0] == '\r' && s[1] == '\n' {
        ReplaceCrlfLength(s[2..]);
      } else {
        ReplaceCrlfLength(s[1..]);
      }
    }
  }

  /** A replacement happens exactly when the text holds a CR LF pair. */
  lemma {:induction false} CountCrlfPositive(s: string)
    ensures CountCrlf(s) > 0 <==> HasCrlf(s)
  {
    if |s| >= 2 {
      if s[0] == '\r' && s[1] == '\n' {
        assert s[0] == '\r' && s[0 + 1] == '\n';
      } else {
        CountCrlfPositive(s[1..]);
        if HasCrlf(s[1..]) {
          var i :| 0 <= i < |s[1..]| - 1 && s[1..][i] == '\r' && s[1..][i + 1] == '\n';
          assert s[i + 1] == '\r' && s[i + 1 + 1] == '\n';
        }
        if HasCrlf(s) {
          var i :| 0 <= i < |s| - 1 && s[i] == '\r' && s[i + 1] == '\n';
          assert i != 0;
          assert s[1..][i - 1] == '\r' && s[1..][i - 1 + 1] == '\n';
        }
      }
    }
  }

  /** The rewrite leaves a text unchanged exactly when it holds no CR LF. */
  lemma ReplaceCrlfIdentity(s: string)
    ensures ReplaceCrlf(s) == s <==> !HasCrlf(s)
  {
    ReplaceCrlfLength(s);
    CountCrlfPositive(s);
    if !HasCrlf(s) {
      NoCrlfUnchanged(s);
    }
  }

  lemma {:induction false} NoCrlfUnchanged(s: string)
    requires CountCrlf(s) == 0
    ensures ReplaceCrlf(s) == s
  {
    if |s| >= 2 {
      NoCrlfUnchanged(s[1..]);
    }
  }

  /** The rewrite only deletes carriage returns: every other character
      keeps its count, and exactly one CR goes per replacement. */
  lemma ReplaceCrlfDropsOnlyCr(s: string)
    ensures multiset(ReplaceCrlf(s))['\r'] + CountCrlf(s) == multiset(s)['\r']
    ensures forall c :: c != '\r' ==> multiset(ReplaceCrlf(s))[c] == multiset(s)[c]
  {
    ReplaceCrlfCharCount(s, '\r');
    forall c | c != '\r' ensures multiset(ReplaceCrlf(s))[c] == multiset(s)[c] {
      ReplaceCrlfCharCount(s, c);
    }
  }

  lemma {:induction false} ReplaceCrlfCharCount(s: string, c: char)
    ensures multiset(ReplaceCrlf(s))[c] + (if c == '\r' then CountCrlf(s) else 0) == multiset(s)[c]
  {
    if |s| >= 2 {
      if s[0] == '\r' && s[1] == '\n' {
        ReplaceCrlfCharCount(s[2..], c);
        CrlfStepCount(s, c);
      } else {
        ReplaceCrlfCharCount(s[1..], c);
        PlainStepCount(s, c);
      }
    }
  }

  /** Counting across one replaced CR LF at the front. */
  lemma CrlfStepCount(s: string, c: char)
    requires |s| >= 2 && s[0] == '\r' && s[1] == '\n'
    ensures CountCrlf(s) == 1 + CountCrlf(s[2..])
    ensures multiset(ReplaceCrlf(s))[c] == (if c == '\n' then 1 else 0) + multiset(ReplaceCrlf(s[2..]))[c]
    ensures multiset(s)[c] == (if c == '\r' then 1 else 0) + (if c == '\n' then 1 else 0) + multiset(s[2..])[c]
  {
    CountAtHead(s, c);
    CountAtHead(s[1..], c);
    assert s[1..][1..] == s[2..];
    var r := ReplaceCrlf(s);
    assert r == "\n" + ReplaceCrlf(s[2..]);
    CountAtHead(r, c);
    assert r[1..] == ReplaceCrlf(s[2..]);
  }

  /** Counting across one character copied from the front. */
  lemma PlainStepCount(s: string, c: char)
    requires |s| >= 2 && !(s[0] == '\r' && s[1] == '\n')
    ensures CountCrlf(s) == CountCrlf(s[1..])
    ensures multiset(ReplaceCrlf(s))[c] == (if c == s[0] then 1 else 0) + multiset(ReplaceCrlf(s[1..]))[c]
    ensures multiset(s)[c] == (if c == s[0] then 1 else 0) + multiset(s[1..])[c]
  {
    CountAtHead(s, c);
    var r := ReplaceCrlf(s);
    assert r == [s[0]] + ReplaceCrlf(s[1..]);
    CountAtHead(r, c);
    assert r[1..] == ReplaceCrlf(s[1..]);
  }

  /** How often `c` occurs in `s`, split at the first character. */
  lemma CountAtHead(s: string, c: char)
    requires |s| >= 1
    ensures multiset(s)[c] == (if c == s[0] then 1 else 0) + multiset(s[1..])[c]
  {
    assert s == [s[0]] + s[1..];
  }

  /** The rewrite described position by position: keep every character
      except a CR whose next character is LF. */
  function DropCrBeforeLf(s: string): string
  {
    if s == [] then []
    else (if s[0] == '\r' && |s| > 1 && s[1] == '\n' then [] else [s[0]]) + DropCrBeforeLf(s[1..])
  }

  /** Left-to-right replacement of CR LF by LF removes exactly the CRs that
      stand right before an LF, and keeps the order of everything else. */
  lemma {:induction false} ReplaceCrlfIsDropCrBeforeLf(s: string)
    ensures ReplaceCrlf(s) == DropCrBeforeLf(s)
  {
    if |s| >= 2 {
      if s[0] == '\r' && s[1] == '\n' {
        ReplaceCrlfIsDropCrBeforeLf(s[2..]);
        assert s[1..][1..] == s[2..];
        assert DropCrBeforeLf(s[1..]) == ['\n'] + DropCrBeforeLf(s[2..]);
      } else {
        ReplaceCrlfIsDropCrBeforeLf(s[1..]);
      }
    } else if |s| == 1 {
      assert DropCrBeforeLf(s[1..]) == [];
    }
  }

  /** A CR before a CR LF survives, so the output may still hold CR LF and
      applying the rewrite twice is not the same as applying it once. */
  lemma ReplaceCrlfNotIdempotent()
    ensures ReplaceCrlf("\r\r\n") == "\r\n"
    ensures ReplaceCrlf(ReplaceCrlf("\r\r\n")) != ReplaceCrlf("\r\r\n")
  {
  }

  // ---------------------------------------------------------------------------
  // Ordering of str (code point by code point)

  /** Python's `a <= b` on `str`: lexicographic by code point, a proper
      prefix sorting first. (Dafny's own `<=` on sequences means "is a
      prefix of", which is not this order.) */
  predicate LexLe(a: string, b: string)
  {
    a == [] || (b != [] && (a[0] < b[0] || (a[0] == b[0] && LexLe(a[1..], b[1..]))))
  }

  lemma {:induction false} LexLeReflexive(a: string)
    ensures LexLe(a, a)
  {
    if a != [] {
      LexLeReflexive(a[1..]);
    }
  }

  lemma {:induction false} LexLeTotal(a: string, b: string)
    ensures LexLe(a, b) || LexLe(b, a)
  {
    if a != [] && b != [] && a[0] == b[0] {
      LexLeTotal(a[1..], b[1..]);
    }
  }

  lemma {:induction false} LexLeAntisymmetric(a: string, b: string)
    requires LexLe(a, b) && LexLe(b, a)
    ensures a == b
  {
    if a != [] && b != [] {
      LexLeAntisymmetric(a[1..], b[1..]);
      assert a == [a[0]] + a[1..];
      assert b == [b[0]] + b[1..];
    }
  }

  lemma {:induction false} LexLeTransitive(a: string, b: string, c: string)
    requires LexLe(a, b) && LexLe(b, c)
    ensures LexLe(a, c)
  {
    if a != [] && b != [] && c != [] && a[0] == b[0] && b[0] == c[0] {
      LexLeTransitive(a[1..], b[1..], c[1..]);
    }
  }

  // ---------------------------------------------------------------------------
  // Decimal rendering of an int inside an f-string

  function DigitChar(d: nat): (c: char)
    requires d < 10
    ensures '0' <= c <= '9'
  {
    ('0' as int + d) as char
  }

  /** `str(n)` for a natural number: its decimal digits, most significant
      first, with no leading zero. */
  function Decimal(n: nat): (r: string)
    ensures |r| >= 1 && (forall k :: 0 <= k < |r| ==> '0' <= r[k] <= '9')
    ensures (n < 10) == (|r| == 1)
    ensures r[|r| - 1] == DigitChar(n % 10)
  {
    if n < 10 then [DigitChar(n)] else Decimal(n / 10) + [DigitChar(n % 10)]
  }

  /** The number a string of decimal digits denotes, read most significant
      digit first. */
  function DigitsValue(s: string): int
  {
    if s == [] then 0
    else 10 * DigitsValue(s[..|s| - 1]) + (s[|s| - 1] as int - '0' as int)
  }

  /** `Decimal(n)` denotes `n`, and only `0` is written with a leading
      zero. */
  lemma {:induction false} DecimalValue(n: nat)
    ensures DigitsValue(Decimal(n)) == n
    ensures Decimal(n)[0] == '0' ==> n == 0
  {
    var r := Decimal(n);
    if n >= 10 {
      DecimalValue(n / 10);
      assert r[..|r| - 1] == Decimal(n / 10);
      assert r[0] == Decimal(n / 10)[0];
    } else {
      assert r[..|r| - 1] == [];
    }
  }

  /** Different numbers render differently, so `strIngredient{i}` names a
      different field for every slot number. */
  lemma {:induction false} DecimalInjective(m: nat, n: nat)
    requires Decimal(m) == Decimal(n)
    ensures m == n
  {
    if m >= 10 && n >= 10 {
      var dm, dn := Decimal(m), Decimal(n);
      assert dm[..|dm| - 1] == Decimal(m / 10);
      assert dn[..|dn| - 1] == Decimal(n / 10);
      DecimalInjective(m / 10, n / 10);
    }
  }
}
