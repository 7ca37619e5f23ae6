/** The delimiter codecs the store uses for list-valued cells: guest names are
    joined on ',', checklist tasks and statuses on ';', statuses are written
    with Python's str() and read back with int(). */
module Codec {
  import opened Cells

  // ---------------------------------------------------------------------------
  // Joining and splitting on one delimiter character
  // ---------------------------------------------------------------------------

  /** `sep.join(parts)`. */
  function Join(parts: seq<string>, sep: char): string
  {
    if |parts| == 0 then ""
    else if |parts| == 1 then parts[0]
    else parts[0] + [sep] + Join(parts[1..], sep)
  }

  /** `s.split(sep)`: always at least one piece, and no piece holds `sep`. */
  function Split(s: string, sep: char): (r: seq<string>)
    ensures |r| >= 1
    ensures forall k :: 0 <= k < |r| ==> sep !in r[k]
  {
    if s == [] then [""]
    else
      var rest := Split(s[1..], sep);
      if s[0] == sep then [""] + rest
      else [[s[0]] + rest[0]] + rest[1..]
  }

  /** Number of occurrences of `c` in `s`. */
  function Count(s: string, c: char): nat
  {
    if s == [] then 0 else (if s[0] == c then 1 else 0) + Count(s[1..], c)
  }

  /** Total number of occurrences of `c` in all of `parts`. */
  function CountAll(parts: seq<string>, c: char): nat
  {
    if parts == [] then 0 else Count(parts[0], c) + CountAll(parts[1..], c)
  }

  /** No element of `parts` contains `sep`. */
  predicate NoSep(parts: seq<string>, sep: char)
  {
    forall k :: 0 <= k < |parts| ==> sep !in parts[k]
  }

  /** Reading a list cell: an empty cell is the empty list, any other text is
      split on the delimiter. */
  function DecodeList(s: string, sep: char): seq<string>
  {
    if s == "" then [] else Split(s, sep)
  }

  lemma JoinCons(x: string, t: seq<string>, sep: char)
    requires t != []
    ensures Join([x] + t, sep) == x + [sep] + Join(t, sep)
  {
    assert ([x] + t)[1..] == t;
  }

  /** Splitting and re-joining gives back the text, whatever it holds. */
  lemma {:induction false} JoinSplit(s: string, sep: char)
    ensures Join(Split(s, sep), sep) == s
  {
    if s != [] {
      var rest := Split(s[1..], sep);
      JoinSplit(s[1..], sep);
      if s[0] == sep {
        JoinCons("", rest, sep);
        assert s == [sep] + s[1..];
      } else {
        var head := [s[0]] + rest[0];
        if |rest| == 1 {
          assert Join(rest, sep) == rest[0];
        } else {
          JoinCons(head, rest[1..], sep);
          JoinCons(rest[0], rest[1..], sep);
          assert rest == [rest[0]] + rest[1..];
        }
        assert s == [s[0]] + s[1..];
      }
    }
  }

  lemma {:induction false} SplitNoSep(a: string, sep: char)
    requires sep !in a
    ensures Split(a, sep) == [a]
  {
    if a != [] {
      assert sep !in a[1..];
      SplitNoSep(a[1..], sep);
      assert a == [a[0]] + a[1..];
    }
  }

  lemma {:induction false} SplitCons(a: string, b: string, sep: char)
    requires sep !in a
    ensures Split(a + [sep] + b, sep) == [a] + Split(b, sep)
  {
    var s := a + [sep] + b;
    if a == [] {
      assert s == [sep] + b;
      assert s[1..] == b;
    } else {
      assert s[0] == a[0];
      assert s[1..] == a[1..] + [sep] + b;
      assert sep !in a[1..];
      SplitCons(a[1..], b, sep);
      assert a == [a[0]] + a[1..];
    }
  }

  /** Joining then splitting gives back a non-empty list whose elements do not
      hold the delimiter. */
  lemma {:induction false} SplitJoin(parts: seq<string>, sep: char)
    requires |parts| >= 1 && NoSep(parts, sep)
    ensures Split(Join(parts, sep), sep) == parts
  {
    if |parts| == 1 {
      SplitNoSep(parts[0], sep);
    } else {
      SplitJoin(parts[1..], sep);
      SplitCons(parts[0], Join(parts[1..], sep), sep);
      assert parts == [parts[0]] + parts[1..];
    }
  }

  lemma {:induction false} CountAppend(a: string, b: string, c: char)
    ensures Count(a + b, c) == Count(a, c) + Count(b, c)
  {
    if a == [] {
      assert a + b == b;
    } else {
      assert (a + b)[1..] == a[1..] + b;
      CountAppend(a[1..], b, c);
    }
  }

  /** `Split` yields one more piece than there are delimiters. */
  lemma {:induction false} SplitLength(s: string, sep: char)
    ensures |Split(s, sep)| == Count(s, sep) + 1
  {
    if s != [] {
      SplitLength(s[1..], sep);
    }
  }

  lemma {:induction false} CountJoin(parts: seq<string>, sep: char)
    requires |parts| >= 1
    ensures Count(Join(parts, sep), sep) == CountAll(parts, sep) + |parts| - 1
  {
    if |parts| > 1 {
      CountJoin(parts[1..], sep);
      CountAppend(parts[0] + [sep], Join(parts[1..], sep), sep);
      CountAppend(parts[0], [sep], sep);
      assert Count([sep], sep) == 1 by { assert [sep][1..] == []; }
    } else {
      assert parts[1..] == [];
    }
  }

  lemma {:induction false} CountAllZero(parts: seq<string>, sep: char)
    ensures CountAll(parts, sep) == 0 <==> NoSep(parts, sep)
  {
    if parts != [] {
      CountAllZero(parts[1..], sep);
      CountZero(parts[0], sep);
      forall k | 1 <= k < |parts| ensures parts[k] == parts[1..][k - 1] { }
    }
  }

  lemma {:induction false} CountZero(s: string, c: char)
    ensures Count(s, c) == 0 <==> c !in s
  {
    if s != [] {
      CountZero(s[1..], c);
      assert s == [s[0]] + s[1..];
    }
  }

  lemma JoinIsEmpty(parts: seq<string>, sep: char)
    ensures Join(parts, sep) == "" <==> parts == [] || parts == [""]
  {
    if |parts| > 1 {
      assert sep in Join(parts, sep) by {
        assert Join(parts, sep)[|parts[0]|] == sep;
      }
    }
  }

  /** The list codec round-trips exactly when the list is not the single empty
      name and no element holds the delimiter. */
  lemma ListRoundTrip(parts: seq<string>, sep: char)
    ensures DecodeList(Join(parts, sep), sep) == parts <==> parts != [""] && NoSep(parts, sep)
  {
    JoinIsEmpty(parts, sep);
    if parts != [] && parts != [""] {
      if NoSep(parts, sep) {
        SplitJoin(parts, sep);
      } else {
        SplitLength(Join(parts, sep), sep);
        CountJoin(parts, sep);
        CountAllZero(parts, sep);
      }
    }
  }

  // ---------------------------------------------------------------------------
  // Integers as Python writes them with str() and reads them with int()
  // ---------------------------------------------------------------------------

  predicate IsDigit(c: char) { '0' <= c <= '9' }

  predicate AllDigits(s: string) { forall k :: 0 <= k < |s| ==> IsDigit(s[k]) }

  function DigitChar(d: nat): (c: char)
    requires d < 10
    ensures IsDigit(c)
  {
    (('0' as int) + d) as char
  }

  function DigitValue(c: char): nat
    requires IsDigit(c)
  {
    (c as int) - ('0' as int)
  }

  /** Decimal digits of `n`, most significant first, without leading zeros. */
  function NatToString(n: nat): (s: string)
    ensures |s| >= 1 && AllDigits(s)
  {
    if n < 10 then [DigitChar(n)] else NatToString(n / 10) + [DigitChar(n % 10)]
  }

  function DigitsValue(s: string): nat
    requires AllDigits(s)
  {
    if s == [] then 0 else DigitsValue(s[..|s| - 1]) * 10 + DigitValue(s[|s| - 1])
  }

  /** `str(n)`. */
  function IntToString(n: int): (s: string)
    ensures |s| >= 1 && ';' !in s
  {
    if n < 0 then "-" + NatToString(-n) else NatToString(n)
  }

  /** `int(p)`: an optional sign and one or more decimal digits; anything else
      is the ValueError, here `None`. */
  function ParseInt(p: string): Option<int>
  {
    if |p| >= 2 && p[0] == '-' && AllDigits(p[1..]) then Some(0 - DigitsValue(p[1..]) as int)
    else if |p| >= 2 && p[0] == '+' && AllDigits(p[1..]) then Some(DigitsValue(p[1..]))
    else if |p| >= 1 && AllDigits(p) then Some(DigitsValue(p))
    else None
  }

  lemma {:induction false} DigitsRoundTrip(n: nat)
    ensures DigitsValue(NatToString(n)) == n
  {
    var s := NatToString(n);
    if n >= 10 {
      DigitsRoundTrip(n / 10);
      assert s[..|s| - 1] == NatToString(n / 10);
    }
  }

  lemma IntRoundTrip(n: int)
    ensures ParseInt(IntToString(n)) == Some(n)
  {
    var s := IntToString(n);
    if n < 0 {
      assert s[1..] == NatToString(-n);
      DigitsRoundTrip(-n);
    } else {
      DigitsRoundTrip(n);
    }
  }

  /** `map(str, xs)`. */
  function Strs(xs: seq<int>): (r: seq<string>)
    ensures |r| == |xs| && NoSep(r, ';')
    ensures forall k :: 0 <= k < |r| ==> r[k] == IntToString(xs[k])
  {
    if xs == [] then [] else [IntToString(xs[0])] + Strs(xs[1..])
  }

  /** `list(map(int, ps))`: `None` as soon as one piece is not an integer. */
  function ParseAll(ps: seq<string>): Option<seq<int>>
  {
    if ps == [] then Some([])
    else
      match (ParseInt(ps[0]), ParseAll(ps[1..]))
      case (Some(x), Some(rest)) => Some([x] + rest)
      case _ => None
  }

  /** Writing checklist statuses: `';'.join(map(str, status))`. */
  function EncodeStatuses(xs: seq<int>): string
  {
    Join(Strs(xs), ';')
  }

  /** Reading checklist statuses: an empty cell is the empty list, otherwise
      every ';'-separated piece goes through int(); `None` is the ValueError. */
  function DecodeStatuses(s: string): Option<seq<int>>
  {
    if s == "" then Some([]) else ParseAll(Split(s, ';'))
  }

  lemma {:induction false} ParseAllStrs(xs: seq<int>)
    ensures ParseAll(Strs(xs)) == Some(xs)
  {
    if xs != [] {
      IntRoundTrip(xs[0]);
      ParseAllStrs(xs[1..]);
      assert Strs(xs)[1..] == Strs(xs[1..]);
      assert xs == [xs[0]] + xs[1..];
    }
  }

  /** Every list of statuses survives writing and reading back. */
  lemma StatusRoundTrip(xs: seq<int>)
    ensures DecodeStatuses(EncodeStatuses(xs)) == Some(xs)
  {
    var ps := Strs(xs);
    JoinIsEmpty(ps, ';');
    if xs != [] {
      assert ps != [""] by { assert |ps[0]| >= 1; }
      SplitJoin(ps, ';');
    }
    ParseAllStrs(xs);
  }
}
