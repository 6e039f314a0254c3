/**
 * The text form of a 32-bit integer as the search-pages editor uses it: Int32.ToString()
 * fills the input box and Int32.TryParse (integer style, invariant signs) reads it back.
 */
module Int32Text {
  import opened Wrappers

  const Int32Min: int := -0x8000_0000
  const Int32Max: int := 0x7fff_ffff

  /** The white space that integer parsing skips at either end. */
  predicate IsWhite(c: char) {
    c == ' ' || '\t' <= c <= '\r'
  }

  predicate IsDigit(c: char) {
    '0' <= c <= '9'
  }

  predicate AllDigits(s: string) {
    forall i :: 0 <= i < |s| ==> IsDigit(s[i])
  }

  predicate AllWhite(s: string) {
    forall i :: 0 <= i < |s| ==> IsWhite(s[i])
  }

  /** An optional sign followed by one or more digits, and nothing else. */
  predicate SignedDigits(t: string) {
    t != [] && if t[0] == '+' || t[0] == '-' then |t| > 1 && AllDigits(t[1..]) else AllDigits(t)
  }

  function TrimStart(s: string): (r: string)
    ensures |r| <= |s|
    ensures r == [] || !IsWhite(r[0])
  {
    if s != [] && IsWhite(s[0]) then TrimStart(s[1..]) else s
  }

  function TrimEnd(s: string): (r: string)
    ensures |r| <= |s|
    ensures r == [] || !IsWhite(r[|r| - 1])
  {
    if s != [] && IsWhite(s[|s| - 1]) then TrimEnd(s[..|s| - 1]) else s
  }

  /** The value of a decimal digit string, most significant digit first. */
  function DigitsValue(ds: string): nat
    requires AllDigits(ds)
  {
    if ds == [] then 0
    else 10 * DigitsValue(ds[..|ds| - 1]) + (ds[|ds| - 1] as int - '0' as int)
  }

  /** The sign and digits that remain once the white space is trimmed. */
  function ParseCore(t: string): (r: Option<int>)
    ensures r.Some? ==> Int32Min <= r.value <= Int32Max
    ensures r.Some? ==> exists i :: 0 <= i < |t| && IsDigit(t[i])
    ensures r.Some? ==> SignedDigits(t)
  {
    var negative := t != [] && t[0] == '-';
    var digits := if t != [] && (t[0] == '-' || t[0] == '+') then t[1..] else t;
    if digits == [] || !AllDigits(digits) then None
    else
      var magnitude: int := DigitsValue(digits);
      var v: int := if negative then -magnitude else magnitude;
      assert IsDigit(t[|t| - 1]);
      if Int32Min <= v <= Int32Max then Some(v) else None
  }

  /**
   * Int32.TryParse: optional white space, an optional sign, one or more digits, optional
   * white space; None for anything else or for a value outside the 32-bit range.
   */
  function TryParse(s: string): (r: Option<int>)
    ensures r.Some? ==> Int32Min <= r.value <= Int32Max
    ensures r.Some? ==> exists i :: 0 <= i < |s| && IsDigit(s[i])
  {
    var t := TrimEnd(TrimStart(s));
    var r := ParseCore(t);
    if r.Some? then
      TrimmedInside(s);
      var k :| 0 <= k < |t| && IsDigit(t[k]);
      assert t[k] in s;
      r
    else r
  }

  /** Every character the trimmed string keeps comes from the original. */
  lemma {:induction false} TrimmedInside(s: string)
    ensures forall c :: c in TrimEnd(TrimStart(s)) ==> c in s
  {
    TrimStartInside(s);
    TrimEndInside(TrimStart(s));
  }

  lemma {:induction false} TrimStartInside(s: string)
    ensures forall c :: c in TrimStart(s) ==> c in s
  {
    if s != [] && IsWhite(s[0]) {
      TrimStartInside(s[1..]);
    }
  }

  lemma {:induction false} TrimEndInside(s: string)
    ensures forall c :: c in TrimEnd(s) ==> c in s
  {
    if s != [] && IsWhite(s[|s| - 1]) {
      TrimEndInside(s[..|s| - 1]);
    }
  }

  function DigitChar(d: nat): (c: char)
    requires d < 10
    ensures IsDigit(c) && c as int - '0' as int == d
  {
    ('0' as int + d) as char
  }

  /** The decimal digits of `n`, without leading zeros. */
  function NatDigits(n: nat): (ds: string)
    ensures ds != [] && AllDigits(ds)
    ensures DigitsValue(ds) == n
    ensures ds[0] != '0' || n == 0
  {
    if n < 10 then [DigitChar(n)]
    else
      var ds := NatDigits(n / 10) + [DigitChar(n % 10)];
      assert ds[..|ds| - 1] == NatDigits(n / 10);
      ds
  }

  /** Int32.ToString(): a minus sign for negative values, then the digits. */
  function IntToString(n: int): (s: string)
    ensures s != [] && (s[0] == '-' <==> n < 0)
    ensures AllDigits(if n < 0 then s[1..] else s)
  {
    if n < 0 then "-" + NatDigits(-n) else NatDigits(n)
  }

  /** Reading back what ToString wrote gives the same number. */
  lemma ParseToString(n: int)
    requires Int32Min <= n <= Int32Max
    ensures TryParse(IntToString(n)) == Some(n)
  {
    var s := IntToString(n);
    var ds := NatDigits(if n < 0 then -n else n);
    assert s[|s| - 1] == ds[|ds| - 1];
    assert TrimStart(s) == s;
    assert TrimEnd(s) == s;
    if n < 0 {
      assert s[1..] == ds;
    }
  }

  lemma {:induction false} TrimStartWhite(ws: string, t: string)
    requires AllWhite(ws) && (t == [] || !IsWhite(t[0]))
    ensures TrimStart(ws + t) == t
  {
    if ws == [] {
      assert ws + t == t;
    } else {
      assert (ws + t)[1..] == ws[1..] + t;
      TrimStartWhite(ws[1..], t);
    }
  }

  lemma {:induction false} TrimEndWhite(t: string, ws: string)
    requires AllWhite(ws) && t != [] && !IsWhite(t[|t| - 1])
    ensures TrimEnd(t + ws) == t
  {
    if ws == [] {
      assert t + ws == t;
    } else {
      assert (t + ws)[..|t + ws| - 1] == t + ws[..|ws| - 1];
      TrimEndWhite(t, ws[..|ws| - 1]);
    }
  }

  /** Trimming white space from around a sign and digits leaves the sign and digits. */
  lemma TrimAround(ws1: string, core: string, ws2: string)
    requires AllWhite(ws1) && AllWhite(ws2)
    requires core != [] && !IsWhite(core[0]) && !IsWhite(core[|core| - 1])
    ensures TrimEnd(TrimStart(ws1 + core + ws2)) == core
  {
    assert ws1 + core + ws2 == ws1 + (core + ws2);
    assert (core + ws2)[0] == core[0];
    TrimStartWhite(ws1, core + ws2);
    TrimEndWhite(core, ws2);
  }

  /** An optional sign and digits stand for their signed value, if it fits in 32 bits. */
  lemma ParseCoreSigned(sign: string, ds: string)
    requires sign == "" || sign == "+" || sign == "-"
    requires ds != [] && AllDigits(ds)
    ensures var m: int := DigitsValue(ds);
      var v := if sign == "-" then -m else m;
      ParseCore(sign + ds) == if Int32Min <= v <= Int32Max then Some(v) else None
  {
    if sign == "" {
      assert sign + ds == ds;
    } else {
      assert (sign + ds)[1..] == ds;
    }
  }

  /**
   * Digits with an optional sign and white space on either side parse to their signed
   * value when it fits in 32 bits, and to None when it does not.
   */
  lemma TryParseSigned(ws1: string, sign: string, ds: string, ws2: string)
    requires AllWhite(ws1) && AllWhite(ws2)
    requires sign == "" || sign == "+" || sign == "-"
    requires ds != [] && AllDigits(ds)
    ensures var m: int := DigitsValue(ds);
      var v := if sign == "-" then -m else m;
      TryParse(ws1 + sign + ds + ws2) == if Int32Min <= v <= Int32Max then Some(v) else None
  {
    var core := sign + ds;
    assert core[|core| - 1] == ds[|ds| - 1];
    assert core[0] == if sign == "" then ds[0] else sign[0];
    assert ws1 + sign + ds + ws2 == ws1 + core + ws2;
    TrimAround(ws1, core, ws2);
    ParseCoreSigned(sign, ds);
  }

  lemma {:induction false} TrimStartKeeps(s: string)
    ensures forall i :: 0 <= i < |s| && !IsWhite(s[i]) ==> s[i] in TrimStart(s)
  {
    if s != [] && IsWhite(s[0]) {
      TrimStartKeeps(s[1..]);
      forall i | 0 <= i < |s| && !IsWhite(s[i])
        ensures s[i] in TrimStart(s)
      {
        assert s[i] == s[1..][i - 1];
      }
    }
  }

  lemma {:induction false} TrimEndKeeps(s: string)
    ensures forall i :: 0 <= i < |s| && !IsWhite(s[i]) ==> s[i] in TrimEnd(s)
  {
    if s != [] && IsWhite(s[|s| - 1]) {
      TrimEndKeeps(s[..|s| - 1]);
      forall i | 0 <= i < |s| && !IsWhite(s[i])
        ensures s[i] in TrimEnd(s)
      {
        assert s[i] == s[..|s| - 1][i];
      }
    }
  }

  /** A character that is neither white space, a digit nor a sign makes the text unparsable. */
  lemma TryParseRejectsOthers(s: string, i: nat)
    requires i < |s| && !IsWhite(s[i]) && !IsDigit(s[i]) && s[i] != '+' && s[i] != '-'
    ensures TryParse(s) == None
  {
    TrimStartKeeps(s);
    TrimEndKeeps(TrimStart(s));
    var t := TrimEnd(TrimStart(s));
    assert s[i] in t;
    var j :| 0 <= j < |t| && t[j] == s[i];
    var digits := if t[0] == '-' || t[0] == '+' then t[1..] else t;
    if t[0] == '-' || t[0] == '+' {
      assert !IsDigit(digits[j - 1]);
    } else {
      assert !IsDigit(digits[j]);
    }
  }

  /** TrimStart removes a prefix of white space and keeps the rest. */
  lemma {:induction false} TrimStartSuffix(s: string)
    ensures TrimStart(s) == s[|s| - |TrimStart(s)|..]
    ensures AllWhite(s[..|s| - |TrimStart(s)|])
  {
    if s != [] && IsWhite(s[0]) {
      TrimStartSuffix(s[1..]);
      var a := |s| - |TrimStart(s)|;
      assert s[1..][a - 1..] == s[a..];
      assert forall i :: 1 <= i < a ==> s[..a][i] == s[1..][..a - 1][i - 1];
    }
  }

  /** TrimEnd removes a suffix of white space and keeps the rest. */
  lemma {:induction false} TrimEndPrefix(s: string)
    ensures TrimEnd(s) == s[..|TrimEnd(s)|]
    ensures AllWhite(s[|TrimEnd(s)|..])
  {
    if s != [] && IsWhite(s[|s| - 1]) {
      var u := s[..|s| - 1];
      TrimEndPrefix(u);
      var b := |TrimEnd(s)|;
      assert u[..b] == s[..b];
      forall i | 0 <= i < |s| - b
        ensures IsWhite(s[b..][i])
      {
        if i < |u| - b {
          assert s[b..][i] == u[b..][i];
        }
      }
    }
  }

  /** Trimming cuts a text into white space, the trimmed text, and white space. */
  lemma TrimSplit(s: string)
    ensures var a := |s| - |TrimStart(s)|;
      var t := TrimEnd(TrimStart(s));
      && s == s[..a] + t + s[a + |t|..]
      && AllWhite(s[..a]) && AllWhite(s[a + |t|..])
  {
    var u := TrimStart(s);
    var a := |s| - |u|;
    var t := TrimEnd(u);
    TrimStartSuffix(s);
    TrimEndPrefix(u);
    assert u[|t|..] == s[a + |t|..];
    assert s == s[..a] + u;
    assert u == t + u[|t|..];
  }

  /**
   * A text that parses is white space, an optional sign, one or more digits and white
   * space: the converse of TryParseSigned.
   */
  lemma TryParseShape(s: string)
    requires TryParse(s).Some?
    ensures var a := |s| - |TrimStart(s)|;
      var t := TrimEnd(TrimStart(s));
      && s == s[..a] + t + s[a + |t|..]
      && AllWhite(s[..a]) && AllWhite(s[a + |t|..])
      && SignedDigits(t)
  {
    TrimSplit(s);
    assert ParseCore(TrimEnd(TrimStart(s))).Some?;
  }
}
