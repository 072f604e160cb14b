/** The string primitives the source takes from Go's `strings` and `fmt`
    packages, over `seq<char>`: counting a separator, splitting on it and
    joining with it, trimming a character from both ends, and the decimal and
    hexadecimal digits used to print numbers. */
module Text {

  /** Occurrences of `c` in `s` (`strings.Count` with a one-character separator). */
  function Count(s: string, c: char): (n: nat)
    ensures n <= |s|
  {
    if |s| == 0 then 0 else (if s[0] == c then 1 else 0) + Count(s[1..], c)
  }

  lemma {:induction false} CountConcat(a: string, b: string, c: char)
    ensures Count(a + b, c) == Count(a, c) + Count(b, c)
    decreases |a|
  {
    if |a| == 0 {
      assert a + b == b;
    } else {
      assert (a + b)[1..] == a[1..] + b;
      CountConcat(a[1..], b, c);
    }
  }

  /** `Count` agrees with the multiplicity of `c` in `s`. */
  lemma {:induction false} CountMultiset(s: string, c: char)
    ensures Count(s, c) == multiset(s)[c]
    decreases |s|
  {
    if |s| > 0 {
      CountMultiset(s[1..], c);
      assert s == [s[0]] + s[1..];
      assert multiset(s) == multiset([s[0]]) + multiset(s[1..]);
    }
  }

  /** `strings.Split(s, sep)` for a one-character separator: the pieces
      between consecutive separators, always at least one (of `""`, `[""]`). */
  function Split(s: string, sep: char): (parts: seq<string>)
    ensures |parts| == Count(s, sep) + 1
    ensures forall i :: 0 <= i < |parts| ==> sep !in parts[i]
  {
    if |s| == 0 then [""]
    else
      var rest := Split(s[1..], sep);
      if s[0] == sep then [""] + rest
      else [[s[0]] + rest[0]] + rest[1..]
  }

  /** `strings.Join(parts, sep)` for a one-character separator. */
  function Join(parts: seq<string>, sep: char): string
  {
    if |parts| == 0 then ""
    else if |parts| == 1 then parts[0]
    else parts[0] + [sep] + Join(parts[1..], sep)
  }

  /** Joining the pieces of a split gives back the original string. */
  lemma {:induction false} JoinSplit(s: string, sep: char)
    ensures Join(Split(s, sep), sep) == s
    decreases |s|
  {
    if |s| > 0 {
      var rest := Split(s[1..], sep);
      JoinSplit(s[1..], sep);
      if s[0] == sep {
        assert Split(s, sep)[1..] == rest;
      } else if |rest| == 1 {
        assert Join(Split(s, sep), sep) == [s[0]] + rest[0];
      } else {
        assert Split(s, sep)[1..] == rest[1..];
        assert Join(rest, sep) == rest[0] + [sep] + Join(rest[1..], sep);
      }
    }
  }

  /** Splitting the join of separator-free pieces gives back the pieces. */
  lemma {:induction false} SplitJoin(parts: seq<string>, sep: char)
    requires |parts| > 0
    requires forall i :: 0 <= i < |parts| ==> sep !in parts[i]
    ensures Split(Join(parts, sep), sep) == parts
    decreases |parts|
  {
    SplitNoSep(parts[0], sep);
    if |parts| > 1 {
      SplitJoin(parts[1..], sep);
      SplitAround(parts[0], sep, Join(parts[1..], sep));
      assert parts == [parts[0]] + parts[1..];
    }
  }

  /** Splitting at a separator splits the two sides independently. */
  lemma {:induction false} SplitAround(x: string, sep: char, y: string)
    ensures Split(x + [sep] + y, sep) == Split(x, sep) + Split(y, sep)
    decreases |x|
  {
    var s := x + [sep] + y;
    if |x| == 0 {
      assert s[1..] == y;
    } else {
      assert s[1..] == x[1..] + [sep] + y;
      SplitAround(x[1..], sep, y);
    }
  }

  /** A string without the separator splits into itself alone. */
  lemma {:induction false} SplitNoSep(x: string, sep: char)
    requires sep !in x
    ensures Split(x, sep) == [x]
    decreases |x|
  {
    if |x| > 0 {
      assert sep !in x[1..];
      SplitNoSep(x[1..], sep);
      assert [x[0]] + x[1..] == x;
    }
  }

  /** The index just past the `i`-th separator of `s` (0 for `i == 0`): where
      the string with its first `i` separator-delimited pieces dropped starts. */
  function LabelStart(s: string, sep: char, i: nat): (k: nat)
    requires i <= Count(s, sep)
    ensures k <= |s|
    ensures Count(s[..k], sep) == i
    ensures i > 0 ==> 0 < k && s[k - 1] == sep
    decreases |s|
  {
    if i == 0 then 0
    else
      var k := 1 + LabelStart(s[1..], sep, if s[0] == sep then i - 1 else i);
      assert s[..k] == [s[0]] + s[1..][..k - 1];
      assert ([s[0]] + s[1..][..k - 1])[1..] == s[1..][..k - 1];
      k
  }

  /** Rejoining the pieces from the `i`-th on gives the suffix of `s` that
      starts just past its `i`-th separator. */
  lemma {:induction false} JoinSplitSuffix(s: string, sep: char, i: nat)
    requires i <= Count(s, sep)
    ensures Join(Split(s, sep)[i..], sep) == s[LabelStart(s, sep, i)..]
    decreases |s|
  {
    if i == 0 {
      JoinSplit(s, sep);
    } else {
      var rest := Split(s[1..], sep);
      var i' := if s[0] == sep then i - 1 else i;
      var k' := LabelStart(s[1..], sep, i');
      assert LabelStart(s, sep, i) == 1 + k';
      assert s[1 + k'..] == s[1..][k'..];
      assert Split(s, sep)[i..] == rest[i'..] by {
        if s[0] == sep {
          assert Split(s, sep) == [""] + rest;
        } else {
          assert Split(s, sep) == [[s[0]] + rest[0]] + rest[1..];
        }
      }
      JoinSplitSuffix(s[1..], sep, i');
    }
  }

  /** Dropping the first `i` pieces leaves `i` fewer separators. */
  lemma LabelSuffixCount(s: string, sep: char, i: nat)
    requires i <= Count(s, sep)
    ensures Count(s[LabelStart(s, sep, i)..], sep) == Count(s, sep) - i
  {
    var k := LabelStart(s, sep, i);
    assert s == s[..k] + s[k..];
    CountConcat(s[..k], s[k..], sep);
  }

  /** `s` with every leading `c` removed. */
  function TrimLeft(s: string, c: char): (r: string)
    ensures |r| <= |s|
    ensures |r| == 0 || r[0] != c
  {
    if |s| > 0 && s[0] == c then TrimLeft(s[1..], c) else s
  }

  /** What `TrimLeft` keeps is a suffix of `s`. */
  lemma {:induction false} TrimLeftSuffix(s: string, c: char)
    ensures TrimLeft(s, c) == s[|s| - |TrimLeft(s, c)|..]
    decreases |s|
  {
    if |s| > 0 && s[0] == c {
      TrimLeftSuffix(s[1..], c);
      var k := |s[1..]| - |TrimLeft(s[1..], c)|;
      assert s[1..][k..] == s[k + 1..];
    }
  }

  /** Everything `TrimLeft` removes is `c`. */
  lemma {:induction false} TrimLeftCut(s: string, c: char)
    ensures forall j :: 0 <= j < |s| - |TrimLeft(s, c)| ==> s[j] == c
    decreases |s|
  {
    if |s| > 0 && s[0] == c {
      TrimLeftCut(s[1..], c);
      assert forall j :: 1 <= j < |s| ==> s[j] == s[1..][j - 1];
    }
  }

  /** `s` with every trailing `c` removed. */
  function TrimRight(s: string, c: char): (r: string)
    ensures |r| <= |s|
    ensures |r| == 0 || r[|r| - 1] != c
  {
    if |s| > 0 && s[|s| - 1] == c then TrimRight(s[..|s| - 1], c) else s
  }

  /** What `TrimRight` keeps is a prefix of `s`. */
  lemma {:induction false} TrimRightPrefix(s: string, c: char)
    ensures TrimRight(s, c) == s[..|TrimRight(s, c)|]
    decreases |s|
  {
    if |s| > 0 && s[|s| - 1] == c {
      TrimRightPrefix(s[..|s| - 1], c);
      var k := |TrimRight(s[..|s| - 1], c)|;
      assert s[..|s| - 1][..k] == s[..k];
    }
  }

  /** Everything `TrimRight` removes is `c`. */
  lemma {:induction false} TrimRightCut(s: string, c: char)
    ensures forall j :: |TrimRight(s, c)| <= j < |s| ==> s[j] == c
    decreases |s|
  {
    if |s| > 0 && s[|s| - 1] == c {
      TrimRightCut(s[..|s| - 1], c);
    }
  }

  /** `strings.Trim(s, cutset)` for a one-character cut set: the middle of `s`
      left once every leading and trailing `c` is gone. */
  function Trim(s: string, c: char): (r: string)
    ensures |r| <= |s|
    ensures |r| == 0 || (r[0] != c && r[|r| - 1] != c)
  {
    var l := TrimLeft(s, c);
    TrimRightPrefix(l, c);
    TrimRight(l, c)
  }

  /** A prefix of a suffix is a slice. */
  lemma SuffixPrefix(s: string, l: string, r: string)
    requires |l| <= |s| && l == s[|s| - |l|..]
    requires |r| <= |l| && r == l[..|r|]
    ensures |s| - |l| + |r| <= |s| && r == s[|s| - |l|..|s| - |l| + |r|]
  {
  }

  /** `Trim` keeps the run of `s` that starts after the leading `c`s. */
  lemma TrimMiddle(s: string, c: char)
    ensures var i := |s| - |TrimLeft(s, c)|;
            i + |Trim(s, c)| <= |s| && Trim(s, c) == s[i..i + |Trim(s, c)|]
  {
    var l := TrimLeft(s, c);
    var r := TrimRight(l, c);
    assert Trim(s, c) == r;
    TrimLeftSuffix(s, c);
    TrimRightPrefix(l, c);
    SuffixPrefix(s, l, r);
  }

  /** Everything after what `Trim` keeps is `c`. */
  lemma TrimTail(s: string, c: char)
    ensures var i := |s| - |TrimLeft(s, c)|;
            forall j :: i + |Trim(s, c)| <= j < |s| ==> s[j] == c
  {
    var l := TrimLeft(s, c);
    var r := TrimRight(l, c);
    var i := |s| - |l|;
    TrimLeftSuffix(s, c);
    TrimRightCut(l, c);
    forall j | i + |r| <= j < |s|
      ensures s[j] == c
    {
      assert s[j] == l[j - i];
    }
  }

  /** What `Trim` cuts away is `c` and nothing else: the result is the run
      of `s` that starts after the leading `c`s, and everything before and
      after it is `c`. */
  lemma TrimShape(s: string, c: char)
    ensures var i := |s| - |TrimLeft(s, c)|;
            var r := Trim(s, c);
            && i + |r| <= |s|
            && r == s[i..i + |r|]
            && (forall j :: 0 <= j < i ==> s[j] == c)
            && (forall j :: i + |r| <= j < |s| ==> s[j] == c)
  {
    TrimLeftCut(s, c);
    TrimMiddle(s, c);
    TrimTail(s, c);
  }

  /** Trimming is idempotent. */
  lemma TrimIdempotent(s: string, c: char)
    ensures Trim(Trim(s, c), c) == Trim(s, c)
  {
    var r := Trim(s, c);
    assert TrimLeft(r, c) == r;
    assert TrimRight(r, c) == r;
  }

  /** The character for a decimal digit. */
  function DigitChar(d: nat): (c: char)
    requires d < 10
  {
    ('0' as int + d) as char
  }

  /** The value of a decimal digit character. */
  function DigitValue(c: char): nat
  {
    if '0' <= c <= '9' then c as int - '0' as int else 0
  }

  /** Base-ten text of `n` without leading zeros, as `%d` and
      `strconv.Itoa` print a non-negative number. */
  function Decimal(n: nat): (s: string)
    ensures |s| > 0
    ensures forall i :: 0 <= i < |s| ==> '0' <= s[i] <= '9'
    ensures |s| > 1 ==> s[0] != '0'
  {
    if n < 10 then [DigitChar(n)] else Decimal(n / 10) + [DigitChar(n % 10)]
  }

  /** The number a string of decimal digits denotes. */
  function ParseDecimal(s: string): nat
  {
    if |s| == 0 then 0 else 10 * ParseDecimal(s[..|s| - 1]) + DigitValue(s[|s| - 1])
  }

  /** Decimal text reads back as the number it was printed from. */
  lemma {:induction false} DecimalRoundTrip(n: nat)
    ensures ParseDecimal(Decimal(n)) == n
  {
    if n >= 10 {
      var s := Decimal(n);
      assert s[..|s| - 1] == Decimal(n / 10);
      DecimalRoundTrip(n / 10);
    }
  }

  /** The lower-case hexadecimal digit table. */
  const HexDigits: string := "0123456789abcdef"

  /** The value of a lower-case hexadecimal digit character. */
  function HexValue(c: char): (n: nat)
    ensures n < 16
  {
    if '0' <= c <= '9' then c as int - '0' as int
    else if 'a' <= c <= 'f' then c as int - 'a' as int + 10
    else 0
  }

  /** Every entry of the table reads back as its own index. */
  lemma HexDigitsRoundTrip(v: nat)
    requires v < 16
    ensures HexValue(HexDigits[v]) == v
  {
  }
}
