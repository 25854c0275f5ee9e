/** The text operations the provisioning script relies on: Python's `str.split`
    with a one-character separator, `str.strip` and `int()` on a string, and
    `str()` on an integer as the partner of `int()`. */
module Text {
  import opened Wrappers

  /** Number of occurrences of `c` in `s`. */
  function Count(s: string, c: char): nat
  {
    if s == [] then 0 else (if s[0] == c then 1 else 0) + Count(s[1..], c)
  }

  lemma {:induction false} CountAppend(a: string, b: string, c: char)
    ensures Count(a + b, c) == Count(a, c) + Count(b, c)
  {
    if a != [] {
      assert (a + b)[1..] == a[1..] + b;
      CountAppend(a[1..], b, c);
    } else {
      assert a + b == b;
    }
  }

  lemma {:induction false} CountAbsent(s: string, c: char)
    requires c !in s
    ensures Count(s, c) == 0
  {
    if s != [] {
      assert s[1..] == s[|s[..1]|..];
      assert c !in s[1..] by {
        forall i | 0 <= i < |s[1..]| ensures s[1..][i] != c {
          assert s[1..][i] == s[i + 1];
        }
      }
      CountAbsent(s[1..], c);
    }
  }

  /** `s.split(sep)`: the pieces between occurrences of `sep`, empty pieces kept. */
  function Split(s: string, sep: char): (fields: seq<string>)
    ensures |fields| >= 1
  {
    if s == [] then [[]]
    else
      var rest := Split(s[1..], sep);
      if s[0] == sep then [[]] + rest
      else [[s[0]] + rest[0]] + rest[1..]
  }

  /** `sep.join(fields)`: the partner of `Split`. */
  function Join(fields: seq<string>, sep: char): string
  {
    if fields == [] then []
    else if |fields| == 1 then fields[0]
    else fields[0] + [sep] + Join(fields[1..], sep)
  }

  /** Splitting gives exactly one more field than there are separators. */
  lemma {:induction false} SplitCount(s: string, sep: char)
    ensures |Split(s, sep)| == Count(s, sep) + 1
  {
    if s != [] {
      SplitCount(s[1..], sep);
    }
  }

  /** No field of a split contains the separator. */
  lemma {:induction false} SplitFieldsHaveNoSeparator(s: string, sep: char)
    ensures forall i :: 0 <= i < |Split(s, sep)| ==> sep !in Split(s, sep)[i]
  {
    if s != [] {
      SplitFieldsHaveNoSeparator(s[1..], sep);
    }
  }

  /** Joining the fields back with the separator reproduces the text exactly:
      nothing is dropped, reordered or trimmed by the split. */
  lemma {:induction false} JoinSplit(s: string, sep: char)
    ensures Join(Split(s, sep), sep) == s
  {
    if s != [] {
      var rest := Split(s[1..], sep);
      JoinSplit(s[1..], sep);
      if s[0] == sep {
        assert Split(s, sep) == [[]] + rest;
        assert ([[]] + rest)[1..] == rest;
        assert s == [sep] + s[1..];
      } else if |rest| == 1 {
        assert Split(s, sep) == [[s[0]] + rest[0]];
        assert s == [s[0]] + s[1..];
      } else {
        var fields := Split(s, sep);
        assert fields[1..] == rest[1..];
        assert Join(rest, sep) == rest[0] + [sep] + Join(rest[1..], sep);
        assert s == [s[0]] + s[1..];
      }
    }
  }

  /** A separator splits the text into the fields before it and the fields after it. */
  lemma {:induction false} SplitAtSeparator(a: string, b: string, sep: char)
    ensures Split(a + [sep] + b, sep) == Split(a, sep) + Split(b, sep)
  {
    if a == [] {
      assert a + [sep] + b == [sep] + b;
      assert ([sep] + b)[1..] == b;
    } else {
      assert (a + [sep] + b)[1..] == a[1..] + [sep] + b;
      SplitAtSeparator(a[1..], b, sep);
    }
  }

  /** Text without the separator is one field. */
  lemma {:induction false} SplitWithoutSeparator(a: string, sep: char)
    requires sep !in a
    ensures Split(a, sep) == [a]
  {
    if a != [] {
      assert a[1..] == a[|a[..1]|..];
      assert sep !in a[1..] by {
        forall i | 0 <= i < |a[1..]| ensures a[1..][i] != sep {
          assert a[1..][i] == a[i + 1];
        }
      }
      SplitWithoutSeparator(a[1..], sep);
      assert [a[0]] + a[1..] == a;
    }
  }

  /** Splitting a join of separator-free fields gives the fields back. */
  lemma {:induction false} SplitJoin(fields: seq<string>, sep: char)
    requires |fields| >= 1
    requires forall i :: 0 <= i < |fields| ==> sep !in fields[i]
    ensures Split(Join(fields, sep), sep) == fields
  {
    SplitWithoutSeparator(fields[0], sep);
    if |fields| > 1 {
      SplitJoin(fields[1..], sep);
      SplitAtSeparator(fields[0], Join(fields[1..], sep), sep);
      assert [fields[0]] + fields[1..] == fields;
    }
  }

  /** The characters `str.strip()` removes, restricted to ASCII: those `str.isspace()`
      accepts, including the separators `\x1c` to `\x1f`. */
  predicate IsSpace(c: char)
  {
    IsIntSpace(c) || ('\U{001C}' <= c <= '\U{001F}')
  }

  /** The characters `int()` skips around a number: only the six C-locale
      whitespace characters; `\x1c` to `\x1f` make `int()` fail. */
  predicate IsIntSpace(c: char)
  {
    c == ' ' || c == '\t' || c == '\n' || c == '\r' || c == '\U{000B}' || c == '\U{000C}'
  }

  /** Every character of `s` is blank. */
  predicate AllBlank(s: string, blank: char -> bool)
  {
    forall i :: 0 <= i < |s| ==> blank(s[i])
  }

  predicate IsDigit(c: char)
  {
    '0' <= c <= '9'
  }

  predicate AllDigits(s: string)
  {
    forall i :: 0 <= i < |s| ==> IsDigit(s[i])
  }

  function StripLeft(s: string, blank: char -> bool): string
  {
    if s != [] && blank(s[0]) then StripLeft(s[1..], blank) else s
  }

  function StripRight(s: string, blank: char -> bool): string
  {
    if s != [] && blank(s[|s| - 1]) then StripRight(s[..|s| - 1], blank) else s
  }

  /** Leading and trailing blanks removed. */
  function Trim(s: string, blank: char -> bool): string
  {
    StripRight(StripLeft(s, blank), blank)
  }

  /** `s.strip()`. */
  function Strip(s: string): string
  {
    Trim(s, IsSpace)
  }

  function DigitValue(c: char): nat
    requires IsDigit(c)
  {
    c as int - '0' as int
  }

  /** The value of a string of decimal digits, most significant first. */
  function DigitsValue(d: string): nat
    requires AllDigits(d)
  {
    if d == [] then 0 else DigitsValue(d[..|d| - 1]) * 10 + DigitValue(d[|d| - 1])
  }

  /** The digits of a trimmed number: the text after one leading sign, if any. */
  function Unsigned(t: string): string
  {
    if |t| > 0 && (t[0] == '+' || t[0] == '-') then t[1..] else t
  }

  /** The value of a trimmed number whose unsigned part is all digits. */
  function SignedValue(t: string): int
    requires AllDigits(Unsigned(t))
  {
    var value: int := DigitsValue(Unsigned(t));
    if |t| > 0 && t[0] == '-' then -value else value
  }

  /** The pieces of a text `int()` accepts: whitespace it skips, an optional
      sign, at least one digit, whitespace it skips; `n` is their value. */
  predicate IntParts(ws1: string, sign: string, digits: string, ws2: string, n: int)
  {
    && AllBlank(ws1, IsIntSpace) && AllBlank(ws2, IsIntSpace)
    && (sign == "" || sign == "+" || sign == "-")
    && |digits| > 0 && AllDigits(digits)
    && n == (if sign == "-" then -(DigitsValue(digits) as int) else DigitsValue(digits))
  }

  /** `s` is a decimal integer literal with value `n`, as `int()` reads it. */
  ghost predicate IntText(s: string, n: int)
  {
    exists ws1, sign, digits, ws2 :: s == ws1 + sign + digits + ws2 && IntParts(ws1, sign, digits, ws2, n)
  }

  /** `int(s)` for a string: surrounding whitespace is ignored, one optional
      sign, then at least one decimal digit; anything else is a `ValueError`,
      here `None`. */
  function ParseInt(s: string): (n: Option<int>)
    ensures n.Some? ==> IntText(s, n.value)
    ensures n.None? ==> forall v :: !IntText(s, v)
    ensures n.Some? ==> forall i :: 0 <= i < |s| ==> IsIntSpace(s[i]) || IsDigit(s[i]) || s[i] == '+' || s[i] == '-'
  {
    var t := Trim(s, IsIntSpace);
    var body := Unsigned(t);
    NumberCharacters(s);
    IntTextOfTrim(s);
    if |body| > 0 && AllDigits(body) then Some(SignedValue(t)) else None
  }

  /** `str(n)` for a natural number: its decimal digits, no leading zero. */
  function Digits(n: nat): (d: string)
    ensures |d| >= 1 && AllDigits(d)
    ensures d[0] != '0' || n == 0
  {
    var last := ['0' + (n % 10) as char];
    if n < 10 then last else Digits(n / 10) + last
  }

  /** `str(n)` for an integer. */
  function Show(n: int): string
  {
    if n < 0 then "-" + Digits(-n) else Digits(n)
  }

  lemma {:induction false} DigitsValueOfDigits(n: nat)
    ensures DigitsValue(Digits(n)) == n
  {
    if n >= 10 {
      DigitsValueOfDigits(n / 10);
      var d := Digits(n);
      assert d[..|d| - 1] == Digits(n / 10);
    }
  }

  lemma {:induction false} StripLeftBlanks(ws: string, t: string, blank: char -> bool)
    requires AllBlank(ws, blank)
    requires t == [] || !blank(t[0])
    ensures StripLeft(ws + t, blank) == t
  {
    if ws == [] {
      assert ws + t == t;
    } else {
      assert (ws + t)[1..] == ws[1..] + t;
      StripLeftBlanks(ws[1..], t, blank);
    }
  }

  lemma {:induction false} StripRightBlanks(t: string, ws: string, blank: char -> bool)
    requires AllBlank(ws, blank)
    requires t == [] || !blank(t[|t| - 1])
    ensures StripRight(t + ws, blank) == t
  {
    if ws == [] {
      assert t + ws == t;
    } else {
      assert (t + ws)[..|t + ws| - 1] == t + ws[..|ws| - 1];
      StripRightBlanks(t, ws[..|ws| - 1], blank);
    }
  }

  /** Trimming removes exactly the blanks around a text that neither starts
      nor ends with a blank. */
  lemma TrimPadded(ws1: string, t: string, ws2: string, blank: char -> bool)
    requires AllBlank(ws1, blank) && AllBlank(ws2, blank)
    requires |t| > 0 && !blank(t[0]) && !blank(t[|t| - 1])
    ensures Trim(ws1 + t + ws2, blank) == t
  {
    assert ws1 + t + ws2 == ws1 + (t + ws2);
    StripLeftBlanks(ws1, t + ws2, blank);
    StripRightBlanks(t, ws2, blank);
  }

  /** `strip()` removes exactly the whitespace around a text that neither
      starts nor ends with whitespace. */
  lemma StripPadded(ws1: string, t: string, ws2: string)
    requires AllBlank(ws1, IsSpace) && AllBlank(ws2, IsSpace)
    requires |t| > 0 && !IsSpace(t[0]) && !IsSpace(t[|t| - 1])
    ensures Strip(ws1 + t + ws2) == t
  {
    TrimPadded(ws1, t, ws2, IsSpace);
  }

  /** `int()` reads back what `str()` writes, whatever whitespace `int()`
      skips surrounds it, for every integer. */
  lemma ParseIntShow(ws1: string, n: int, ws2: string)
    requires AllBlank(ws1, IsIntSpace) && AllBlank(ws2, IsIntSpace)
    ensures ParseInt(ws1 + Show(n) + ws2) == Some(n)
  {
    var m: nat := if n < 0 then -n else n;
    var d := Digits(m);
    DigitsValueOfDigits(m);
    TrimPadded(ws1, Show(n), ws2, IsIntSpace);
    if n < 0 {
      assert Show(n)[1..] == d;
    }
  }

  lemma {:induction false} StripLeftKeeps(s: string, i: nat, blank: char -> bool)
    requires i < |s| && !blank(s[i])
    ensures s[i] in StripLeft(s, blank)
  {
    if blank(s[0]) {
      assert s[1..][i - 1] == s[i];
      StripLeftKeeps(s[1..], i - 1, blank);
    }
  }

  lemma {:induction false} StripRightKeeps(s: string, i: nat, blank: char -> bool)
    requires i < |s| && !blank(s[i])
    ensures s[i] in StripRight(s, blank)
  {
    if blank(s[|s| - 1]) {
      assert s[..|s| - 1][i] == s[i];
      StripRightKeeps(s[..|s| - 1], i, blank);
    }
  }

  /** A text whose trimmed, unsigned part is all digits holds nothing but
      blanks, digits and signs. */
  lemma NumberCharacters(s: string)
    ensures var body := Unsigned(Trim(s, IsIntSpace));
      AllDigits(body) ==> forall i :: 0 <= i < |s| ==> IsIntSpace(s[i]) || IsDigit(s[i]) || s[i] == '+' || s[i] == '-'
  {
    var t := Trim(s, IsIntSpace);
    if AllDigits(Unsigned(t)) {
      forall i | 0 <= i < |s| && !IsIntSpace(s[i])
        ensures IsDigit(s[i]) || s[i] == '+' || s[i] == '-'
      {
        StripLeftKeeps(s, i, IsIntSpace);
        var l := StripLeft(s, IsIntSpace);
        var j :| 0 <= j < |l| && l[j] == s[i];
        StripRightKeeps(l, j, IsIntSpace);
        var k :| 0 <= k < |t| && t[k] == s[i];
        if |t| > 0 && (t[0] == '+' || t[0] == '-') && k > 0 {
          assert Unsigned(t)[k - 1] == t[k];
        }
      }
    }
  }

  /** A text without a digit is a `ValueError`: the empty text, a bare sign
      and whitespace alone among them. */
  lemma ParseIntNeedsDigit(s: string)
    requires forall i :: 0 <= i < |s| ==> !IsDigit(s[i])
    ensures ParseInt(s) == None
  {
    if ParseInt(s).Some? {
      IntTextHasDigit(s, ParseInt(s).value);
    }
  }

  lemma IntTextHasDigit(s: string, n: int)
    requires IntText(s, n)
    ensures exists i :: 0 <= i < |s| && IsDigit(s[i])
  {
    var ws1, sign, digits, ws2 :| s == ws1 + sign + digits + ws2 && IntParts(ws1, sign, digits, ws2, n);
    assert s[|ws1| + |sign|] == digits[0];
  }

  /** What `StripLeft` removes is a run of blanks in front of what it keeps. */
  lemma {:induction false} StripLeftSplit(s: string, blank: char -> bool)
    ensures |StripLeft(s, blank)| <= |s|
    ensures var ws := s[..|s| - |StripLeft(s, blank)|];
      AllBlank(ws, blank) && s == ws + StripLeft(s, blank)
  {
    if s != [] && blank(s[0]) {
      StripLeftSplit(s[1..], blank);
      var r := StripLeft(s[1..], blank);
      var ws := s[..|s| - |r|];
      assert ws == [s[0]] + s[1..][..|s| - 1 - |r|];
    } else {
      assert s[..0] == [];
    }
  }

  /** What `StripRight` removes is a run of blanks after what it keeps. */
  lemma {:induction false} StripRightSplit(s: string, blank: char -> bool)
    ensures |StripRight(s, blank)| <= |s|
    ensures var ws := s[|StripRight(s, blank)|..];
      AllBlank(ws, blank) && s == StripRight(s, blank) + ws
  {
    if s != [] && blank(s[|s| - 1]) {
      StripRightSplit(s[..|s| - 1], blank);
      var r := StripRight(s[..|s| - 1], blank);
      assert s[|r|..] == s[..|s| - 1][|r|..] + [s[|s| - 1]];
    }
  }

  /** A text is a literal with value `v` exactly when its trimmed, unsigned
      part is a non-empty digit string whose signed value is `v`. */
  lemma IntTextOfTrim(s: string)
    ensures forall v :: IntText(s, v) <==>
      var t := Trim(s, IsIntSpace);
      |Unsigned(t)| > 0 && AllDigits(Unsigned(t)) && v == SignedValue(t)
  {
    var t := Trim(s, IsIntSpace);
    forall v | IntText(s, v)
      ensures |Unsigned(t)| > 0 && AllDigits(Unsigned(t)) && v == SignedValue(t)
    {
      var ws1, sign, digits, ws2 :| s == ws1 + sign + digits + ws2 && IntParts(ws1, sign, digits, ws2, v);
      PartsTrim(ws1, sign, digits, ws2, v);
    }
    if |Unsigned(t)| > 0 && AllDigits(Unsigned(t)) {
      TrimParts(s);
    }
  }

  lemma PartsTrim(ws1: string, sign: string, digits: string, ws2: string, v: int)
    requires IntParts(ws1, sign, digits, ws2, v)
    ensures var t := Trim(ws1 + sign + digits + ws2, IsIntSpace);
      Unsigned(t) == digits && v == SignedValue(t)
  {
    var number := sign + digits;
    assert ws1 + sign + digits + ws2 == ws1 + number + ws2;
    assert number[|number| - 1] == digits[|digits| - 1];
    if sign == "" {
      assert number == digits;
    } else {
      assert number[1..] == digits;
    }
    TrimPadded(ws1, number, ws2, IsIntSpace);
  }

  lemma TrimParts(s: string)
    requires AllDigits(Unsigned(Trim(s, IsIntSpace))) && |Unsigned(Trim(s, IsIntSpace))| > 0
    ensures IntText(s, SignedValue(Trim(s, IsIntSpace)))
  {
    var t := Trim(s, IsIntSpace);
    var ws1, ws2 := TrimSplit(s, IsIntSpace);
    var sign := SignSplit(t);
    var digits := Unsigned(t);
    assert IntParts(ws1, sign, digits, ws2, SignedValue(t));
    assert s == ws1 + sign + digits + ws2;
  }

  /** A trimmed number is its sign, possibly empty, followed by its unsigned part. */
  lemma SignSplit(t: string) returns (sign: string)
    ensures sign == "" || sign == "+" || sign == "-"
    ensures t == sign + Unsigned(t)
    ensures sign == "-" <==> |t| > 0 && t[0] == '-'
  {
    if |t| > 0 && (t[0] == '+' || t[0] == '-') {
      sign := [t[0]];
      assert t == [t[0]] + t[1..];
    } else {
      sign := "";
      assert t == sign + t;
    }
  }

  /** Trimming removes a run of blanks on either side. */
  lemma TrimSplit(s: string, blank: char -> bool) returns (ws1: string, ws2: string)
    ensures AllBlank(ws1, blank) && AllBlank(ws2, blank)
    ensures s == ws1 + Trim(s, blank) + ws2
  {
    var l := StripLeft(s, blank);
    StripLeftSplit(s, blank);
    StripRightSplit(l, blank);
    ws1 := s[..|s| - |l|];
    ws2 := l[|Trim(s, blank)|..];
  }
}
