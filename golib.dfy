/** The few pieces of Go's standard library the reservation core relies on,
    written out with the behaviour Go gives them: truncating `%`,
    `strings.Split`, `strings.Join`, `strings.Trim` with the cut set " ",
    `strings.Contains`, `strconv.Atoi`, `strconv.Itoa` and `fmt`'s `%02d`.
    Strings are sequences of Unicode scalar values; for valid UTF-8 input a
    byte-wise substring match and a scalar-wise one agree. */
module GoLib {

  datatype Option<T> = None | Some(value: T)

  // ---------------------------------------------------------------- integers

  const MinInt64: int := -0x8000_0000_0000_0000
  const MaxInt64: int := 0x7FFF_FFFF_FFFF_FFFF

  /** Go's `a / b` for a positive divisor: the quotient truncated toward zero. */
  function GoQuo(a: int, b: int): (q: int)
    requires b > 0
    ensures a >= 0 ==> 0 <= a - q * b < b
    ensures a < 0 ==> -b < a - q * b <= 0
  {
    if a >= 0 then a / b else -((-a) / b)
  }

  /** Go's `a % b` for a positive divisor: `a == (a / b) * b + a % b` with the
      truncated quotient, so the remainder takes the sign of `a`. */
  function GoRem(a: int, b: int): (r: int)
    requires b > 0
    ensures a == GoQuo(a, b) * b + r
    ensures -b < r < b
    ensures a >= 0 ==> r == a % b
    ensures a <= 0 ==> r <= 0
  {
    if a >= 0 then a % b else -((-a) % b)
  }

  // ----------------------------------------------------------------- digits

  predicate IsDigit(c: char) { '0' <= c <= '9' }

  predicate AllDigits(s: string) { forall i :: 0 <= i < |s| ==> IsDigit(s[i]) }

  /** The value of a run of decimal digits, most significant first. */
  function DigitsValue(s: string): (v: nat)
    requires AllDigits(s)
  {
    if |s| == 0 then 0
    else DigitsValue(s[..|s| - 1]) * 10 + (s[|s| - 1] as int - '0' as int)
  }

  function DigitChar(d: nat): (c: char)
    requires d < 10
    ensures IsDigit(c) && c as int - '0' as int == d
  {
    ('0' as int + d) as char
  }

  /** The shortest decimal spelling of `n`: no sign, no leading zero. */
  function NatDigits(n: nat): (s: string)
    ensures |s| >= 1 && AllDigits(s)
    ensures |s| > 1 ==> s[0] != '0'
  {
    if n < 10 then [DigitChar(n)] else NatDigits(n / 10) + [DigitChar(n % 10)]
  }

  /** `strconv.Itoa`. */
  function Itoa(n: int): (t: string)
  {
    if n < 0 then "-" + NatDigits(-n) else NatDigits(n)
  }

  /** `fmt.Sprintf("%02d", n)`: zero padded to width two; a negative number
      already has two characters and is not padded. */
  function Pad2(n: int): (t: string)
  {
    if 0 <= n < 10 then "0" + Itoa(n) else Itoa(n)
  }

  /** `strconv.Atoi` on a 64-bit platform: an optional sign followed by at
      least one decimal digit and nothing else, with a value that fits an
      `int64`. Anything else is a syntax or range error (`None`). */
  function Atoi(s: string): (res: Option<int>)
  {
    if |s| == 0 then None
    else if s[0] == '-' then SignedDecimal(true, s[1..])
    else if s[0] == '+' then SignedDecimal(false, s[1..])
    else SignedDecimal(false, s)
  }

  /** The digits after the optional sign. */
  function SignedDecimal(negative: bool, body: string): (res: Option<int>)
  {
    if |body| == 0 || !AllDigits(body) then None
    else
      var d: int := DigitsValue(body);
      var v := if negative then -d else d;
      if MinInt64 <= v <= MaxInt64 then Some(v) else None
  }

  lemma {:induction false} NatDigitsValue(n: nat)
    ensures DigitsValue(NatDigits(n)) == n
  {
    if n >= 10 {
      var s := NatDigits(n);
      assert s[..|s| - 1] == NatDigits(n / 10);
      NatDigitsValue(n / 10);
    }
  }

  /** `strconv.Atoi` reads back what `strconv.Itoa` writes. */
  lemma AtoiItoa(n: int)
    requires MinInt64 <= n <= MaxInt64
    ensures Atoi(Itoa(n)) == Some(n)
  {
    if n < 0 {
      var ds := NatDigits(-n);
      var s := Itoa(n);
      assert s[0] == '-' && s[1..] == ds;
      NatDigitsValue(-n);
      assert SignedDecimal(true, ds) == Some(n);
    } else {
      var ds := NatDigits(n);
      assert IsDigit(ds[0]);
      NatDigitsValue(n);
      assert SignedDecimal(false, ds) == Some(n);
    }
  }

  /** A two-digit field reads back as the number that produced it. */
  lemma Pad2Digits(n: int)
    requires 0 <= n <= 99
    ensures |Pad2(n)| == 2 && AllDigits(Pad2(n)) && DigitsValue(Pad2(n)) == n
  {
    if n < 10 {
      var p := Pad2(n);
      assert p == ['0', DigitChar(n)];
      assert p[..1] == ['0'] && DigitsValue(['0']) == 0;
      assert DigitsValue(p) == DigitsValue(p[..1]) * 10 + n;
    } else {
      assert NatDigits(n) == NatDigits(n / 10) + [DigitChar(n % 10)];
      assert NatDigits(n)[..1] == NatDigits(n / 10);
      NatDigitsValue(n);
    }
  }

  // ---------------------------------------------------------------- strings

  /** `strings.Split(s, ",")`. */
  function Split(s: string): (r: seq<string>)
    ensures |r| >= 1
  {
    if |s| == 0 then [""]
    else if s[0] == ',' then [""] + Split(s[1..])
    else
      var rest := Split(s[1..]);
      [[s[0]] + rest[0]] + rest[1..]
  }

  /** `strings.Join(ts, ",")`. */
  function Join(ts: seq<string>): (joined: string)
  {
    if |ts| == 0 then ""
    else if |ts| == 1 then ts[0]
    else ts[0] + "," + Join(ts[1..])
  }

  predicate NoComma(t: string) { forall i :: 0 <= i < |t| ==> t[i] != ',' }

  /** Every piece `strings.Split` returns is free of the separator, and
      joining the pieces gives the input back. */
  lemma SplitJoin(s: string)
    ensures forall k :: 0 <= k < |Split(s)| ==> NoComma(Split(s)[k])
    ensures Join(Split(s)) == s
  {
    SplitPiecesNoComma(s);
    JoinOfSplit(s);
  }

  lemma {:induction false} SplitPiecesNoComma(s: string)
    ensures forall k :: 0 <= k < |Split(s)| ==> NoComma(Split(s)[k])
  {
    if |s| > 0 {
      SplitPiecesNoComma(s[1..]);
      var rest := Split(s[1..]);
      var r := Split(s);
      if s[0] == ',' {
        assert r[1..] == rest;
      } else {
        assert r[0] == [s[0]] + rest[0];
        forall k | 0 < k < |r| ensures NoComma(r[k]) {
          assert r[k] == rest[k];
        }
      }
    }
  }

  lemma {:induction false} JoinOfSplit(s: string)
    ensures Join(Split(s)) == s
  {
    if |s| > 0 {
      JoinOfSplit(s[1..]);
      var rest := Split(s[1..]);
      var r := Split(s);
      if s[0] == ',' {
        assert r == [""] + rest && r[1..] == rest;
        assert Join(r) == "" + "," + Join(rest);
      } else {
        assert r[1..] == rest[1..];
        if |rest| == 1 {
          assert Join(r) == [s[0]] + rest[0];
        } else {
          assert Join(rest) == rest[0] + "," + Join(rest[1..]);
          assert Join(r) == ([s[0]] + rest[0]) + "," + Join(rest[1..]);
        }
        assert [s[0]] + s[1..] == s;
      }
    }
  }

  /** Splitting a join of separator-free pieces gives the pieces back. */
  lemma {:induction false} JoinSplit(ts: seq<string>)
    requires |ts| >= 1
    requires forall k :: 0 <= k < |ts| ==> NoComma(ts[k])
    ensures Split(Join(ts)) == ts
  {
    if |ts| == 1 {
      SplitNoComma(ts[0]);
    } else {
      JoinSplit(ts[1..]);
      SplitPrefix(ts[0], Join(ts[1..]));
      assert [ts[0]] + ts[1..] == ts;
    }
  }

  lemma {:induction false} SplitNoComma(t: string)
    requires NoComma(t)
    ensures Split(t) == [t]
  {
    if |t| > 0 {
      SplitNoComma(t[1..]);
      assert [t[0]] + t[1..] == t;
    }
  }

  lemma {:induction false} SplitPrefix(t: string, u: string)
    requires NoComma(t)
    ensures Split(t + "," + u) == [t] + Split(u)
  {
    if |t| == 0 {
      assert t + "," + u == [','] + u;
      assert (t + "," + u)[1..] == u;
    } else {
      SplitPrefix(t[1..], u);
      var w := t + "," + u;
      assert w[0] == t[0];
      assert w[1..] == t[1..] + "," + u;
      assert [t[0]] + t[1..] == t;
    }
  }

  /** `strings.Trim(s, " ")`: spaces, and nothing else, are removed from
      both ends. */
  function TrimSpaces(s: string): (r: string)
  {
    TrimRight(TrimLeft(s))
  }

  function TrimLeft(s: string): (r: string)
    ensures |r| <= |s| && r == s[|s| - |r|..]
    ensures forall i :: 0 <= i < |s| - |r| ==> s[i] == ' '
    ensures |r| > 0 ==> r[0] != ' '
  {
    if |s| > 0 && s[0] == ' ' then TrimLeft(s[1..]) else s
  }

  function TrimRight(s: string): (r: string)
    ensures |r| <= |s| && r == s[..|r|]
    ensures forall i :: |r| <= i < |s| ==> s[i] == ' '
    ensures |r| > 0 ==> r[|r| - 1] != ' '
  {
    if |s| > 0 && s[|s| - 1] == ' ' then TrimRight(s[..|s| - 1]) else s
  }

  predicate NoSpace(s: string) { forall i :: 0 <= i < |s| ==> s[i] != ' ' }

  lemma TrimNoSpace(s: string)
    requires NoSpace(s)
    ensures TrimSpaces(s) == s
  {
  }

  /** `p` is a prefix of `s`: the case `i == 0` of `OccursAt`, used with
      `Contains`. */
  predicate HasPrefix(s: string, p: string)
  {
    |p| <= |s| && s[..|p|] == p
  }

  /** `sub` occurs in `s` starting at index `i`. */
  predicate OccursAt(s: string, sub: string, i: int)
  {
    0 <= i && i + |sub| <= |s| && s[i..i + |sub|] == sub
  }

  lemma OccursAtTail(s: string, sub: string, i: int)
    requires |s| > 0 && 0 <= i
    ensures OccursAt(s[1..], sub, i) <==> OccursAt(s, sub, i + 1)
  {
    if 0 <= i && i + |sub| <= |s| - 1 {
      assert s[1..][i..i + |sub|] == s[i + 1..i + 1 + |sub|];
    }
  }

  /** `strings.Contains(s, sub)`, computed by trying every start position in
      turn, and characterised by a position at which `sub` occurs. */
  function Contains(s: string, sub: string): (b: bool)
    ensures b <==> exists i :: OccursAt(s, sub, i)
  {
    if HasPrefix(s, sub) then
      assert OccursAt(s, sub, 0);
      true
    else if |s| == 0 then
      assert forall i :: !OccursAt(s, sub, i);
      false
    else
      var b := Contains(s[1..], sub);
      if b then
        var i :| OccursAt(s[1..], sub, i);
        OccursAtTail(s, sub, i);
        true
      else
        forall i | OccursAt(s, sub, i) ensures false {
          if i > 0 { OccursAtTail(s, sub, i - 1); }
        }
        false
  }
}
