/** The pieces of the Java platform the checkin handler leans on: the 32-bit `int`
    (with the wrap-around of `AtomicInteger.addAndGet`), `String.trim` and
    `Integer.parseInt` in radix 10. Strings are sequences of `char`. */
module JavaLang {

  datatype Option<+T> = None | Some(value: T)

  // ---------------------------------------------------------------------------
  // Java int
  // ---------------------------------------------------------------------------

  const IntMin: int := -0x8000_0000
  const IntMax: int := 0x7fff_ffff
  const Modulus: int := 0x1_0000_0000

  predicate InInt32(x: int) {
    IntMin <= x <= IntMax
  }

  /** The Java int congruent to x modulo 2^32: what a 32-bit addition leaves behind. */
  function ToInt32(x: int): (r: int)
    ensures InInt32(r)
    ensures InInt32(x) ==> r == x
  {
    var m := x % Modulus;
    if m <= IntMax then m else m - Modulus
  }

  /** ToInt32 changes its argument by a multiple of 2^32. */
  lemma ToInt32Congruent(x: int)
    ensures (x - ToInt32(x)) % Modulus == 0
  {
    var m := x % Modulus;
    assert x == Modulus * (x / Modulus) + m;
  }

  /** Two Java ints that agree modulo 2^32 are equal. */
  lemma Int32Unique(a: int, b: int)
    requires InInt32(a) && InInt32(b)
    requires (a - b) % Modulus == 0
    ensures a == b
  {
    var d := a - b;
    assert d == Modulus * (d / Modulus);
  }

  /** Reducing an intermediate sum does not change the final reduction, so a running
      32-bit total equals the reduction of the mathematical total. */
  lemma {:induction false} ToInt32AddCongruent(x: int, y: int)
    ensures ToInt32(ToInt32(x) + y) == ToInt32(x + y)
  {
    var a := ToInt32(ToInt32(x) + y);
    var b := ToInt32(x + y);
    var t := ToInt32(x);
    ToInt32Congruent(t + y);
    ToInt32Congruent(x);
    ToInt32Congruent(x + y);
    var k1 := (t + y - a) / Modulus;
    var k2 := (x - t) / Modulus;
    var k3 := (x + y - b) / Modulus;
    assert t + y - a == Modulus * k1;
    assert x - t == Modulus * k2;
    assert x + y - b == Modulus * k3;
    assert a - b == Modulus * (k3 - k1 - k2);
    Int32Unique(a, b);
  }

  // ---------------------------------------------------------------------------
  // String.trim
  // ---------------------------------------------------------------------------

  /** String.trim removes every character whose code is at most U+0020. */
  predicate IsTrimmable(c: char) {
    c <= ' '
  }

  predicate AllTrimmable(s: string) {
    forall k | 0 <= k < |s| :: IsTrimmable(s[k])
  }

  /** A string that starts and ends with a character trim keeps (or is empty). */
  predicate IsTrimmed(s: string) {
    s == [] || (!IsTrimmable(s[0]) && !IsTrimmable(s[|s| - 1]))
  }

  /** The first loop of trim: advance past leading trimmable characters. */
  function TrimStart(s: string): string {
    if s != [] && IsTrimmable(s[0]) then TrimStart(s[1..]) else s
  }

  /** The second loop of trim: retreat past trailing trimmable characters. */
  function TrimEnd(s: string): string {
    if s != [] && IsTrimmable(s[|s| - 1]) then TrimEnd(s[..|s| - 1]) else s
  }

  /** String.trim: the result is no longer than s and neither starts nor ends with a
      character trim would remove. */
  function Trim(s: string): (t: string)
    ensures |t| <= |s|
    ensures IsTrimmed(t)
  {
    TrimStartDropsPrefix(s);
    TrimEndDropsSuffix(TrimStart(s));
    TrimEnd(TrimStart(s))
  }

  /** TrimStart drops a prefix of trimmable characters and stops at the first
      character trim keeps. */
  lemma {:induction false} TrimStartDropsPrefix(s: string)
    ensures |TrimStart(s)| <= |s| && TrimStart(s) == s[|s| - |TrimStart(s)|..]
    ensures TrimStart(s) == [] || !IsTrimmable(TrimStart(s)[0])
    ensures AllTrimmable(s[..|s| - |TrimStart(s)|])
  {
    if s != [] && IsTrimmable(s[0]) {
      TrimStartDropsPrefix(s[1..]);
      var r := TrimStart(s[1..]);
      assert s[1..][|s| - 1 - |r|..] == s[|s| - |r|..];
      forall k | 0 <= k < |s| - |r| ensures IsTrimmable(s[k]) {
        if k > 0 {
          assert s[k] == s[1..][..|s| - 1 - |r|][k - 1];
        }
      }
    }
  }

  /** TrimEnd drops a suffix of trimmable characters and stops at the last
      character trim keeps. */
  lemma {:induction false} TrimEndDropsSuffix(s: string)
    ensures |TrimEnd(s)| <= |s| && TrimEnd(s) == s[..|TrimEnd(s)|]
    ensures TrimEnd(s) == [] || !IsTrimmable(TrimEnd(s)[|TrimEnd(s)| - 1])
    ensures AllTrimmable(s[|TrimEnd(s)|..])
  {
    if s != [] && IsTrimmable(s[|s| - 1]) {
      var init := s[..|s| - 1];
      TrimEndDropsSuffix(init);
      var r := TrimEnd(init);
      assert init[..|r|] == s[..|r|];
      forall k | |r| <= k < |s| ensures IsTrimmable(s[k]) {
        if k < |s| - 1 {
          assert s[k] == init[|r|..][k - |r|];
        }
      }
    }
  }

  /** Trim keeps one contiguous piece of s that starts and ends with a character trim
      keeps, and drops only trimmable characters around it. */
  lemma TrimIsInfix(s: string) returns (i: nat, j: nat)
    ensures i <= j <= |s| && Trim(s) == s[i..j]
    ensures IsTrimmed(Trim(s))
    ensures AllTrimmable(s[..i]) && AllTrimmable(s[j..])
  {
    var t := TrimStart(s);
    TrimStartDropsPrefix(s);
    i := |s| - |t|;
    var r := TrimEnd(t);
    TrimEndDropsSuffix(t);
    j := i + |r|;
    assert t == s[i..];
    assert r == t[..|r|] == s[i..j];
    assert t[|r|..] == s[j..];
    if r != [] {
      assert r[0] == t[0];
    }
  }

  lemma {:induction false} TrimStartOfPadded(pre: string, rest: string)
    requires AllTrimmable(pre)
    requires rest == [] || !IsTrimmable(rest[0])
    ensures TrimStart(pre + rest) == rest
  {
    if pre != [] {
      assert (pre + rest)[1..] == pre[1..] + rest;
      TrimStartOfPadded(pre[1..], rest);
    }
  }

  lemma {:induction false} TrimEndOfPadded(core: string, post: string)
    requires AllTrimmable(post)
    requires core == [] || !IsTrimmable(core[|core| - 1])
    ensures TrimEnd(core + post) == core
  {
    if post != [] {
      assert (core + post)[..|core + post| - 1] == core + post[..|post| - 1];
      TrimEndOfPadded(core, post[..|post| - 1]);
    }
  }

  /** Trim is exactly "strip the padding": whatever trimmable characters surround a
      trimmed core, trim returns that core. */
  lemma TrimOfPadded(pre: string, core: string, post: string)
    requires AllTrimmable(pre) && AllTrimmable(post)
    requires IsTrimmed(core)
    ensures Trim(pre + core + post) == core
  {
    assert pre + core + post == pre + (core + post);
    var rest := core + post;
    if core == [] {
      assert pre + core + post == (pre + post) + [];
      TrimStartOfPadded(pre + post, []);
    } else {
      TrimStartOfPadded(pre, rest);
      TrimEndOfPadded(core, post);
    }
  }

  /** Trimming twice is trimming once. */
  lemma TrimIdempotent(s: string)
    ensures Trim(Trim(s)) == Trim(s)
  {
    var t := Trim(s);
    var _, _ := TrimIsInfix(s);
    assert [] + t + [] == t;
    TrimOfPadded([], t, []);
  }

  // ---------------------------------------------------------------------------
  // Integer.parseInt (radix 10)
  // ---------------------------------------------------------------------------

  predicate IsDigit(c: char) {
    '0' <= c <= '9'
  }

  predicate AllDigits(s: string) {
    forall k | 0 <= k < |s| :: IsDigit(s[k])
  }

  function DigitValue(c: char): nat
    requires IsDigit(c)
  {
    (c as int) - ('0' as int)
  }

  function DigitChar(d: nat): char
    requires d < 10
  {
    (('0' as int) + d) as char
  }

  /** 10 to the power k: one more than the largest value k digits can spell. */
  function Pow10(k: nat): nat {
    if k == 0 then 1 else 10 * Pow10(k - 1)
  }

  /** The digit loop of parseInt: the value of a run of decimal digits, most
      significant first, or None at the first character that is not a digit. The
      range check is left to ParseInt: the magnitude only grows along the run, so
      checking once at the end rejects the same inputs as checking at every digit. */
  function ParseDigits(s: string): (r: Option<nat>)
    ensures r.Some? ==> r.value < Pow10(|s|)
  {
    if s == [] then Some(0)
    else
      match ParseDigits(s[..|s| - 1])
      case None => None
      case Some(v) =>
        if IsDigit(s[|s| - 1]) then Some(v * 10 + DigitValue(s[|s| - 1])) else None
  }

  /** Integer.parseInt(s, 10): an optional '+' or '-', then at least one decimal
      digit, and a value that is a Java int; anything else is a NumberFormatException,
      modelled as None. */
  function ParseInt(s: string): (r: Option<int>)
    ensures r.Some? ==> InInt32(r.value)
  {
    if s == [] then None
    else
      var signed := s[0] < '0';
      var negative := s[0] == '-';
      if signed && !negative && s[0] != '+' then None
      else
        var digits := if signed then s[1..] else s;
        if digits == [] then None
        else
          match ParseDigits(digits)
          case None => None
          case Some(magnitude) =>
            var v := if negative then -(magnitude as int) else magnitude as int;
            if InInt32(v) then Some(v) else None
  }

  /** The digit loop accepts exactly the runs of decimal digits. */
  lemma {:induction false} ParseDigitsAccepts(s: string)
    ensures ParseDigits(s).Some? <==> AllDigits(s)
  {
    if s != [] {
      var init := s[..|s| - 1];
      ParseDigitsAccepts(init);
      if AllDigits(s) {
        assert AllDigits(init) by {
          forall k | 0 <= k < |init| ensures IsDigit(init[k]) {
            assert init[k] == s[k];
          }
        }
      }
    }
  }

  /** The part of s parseInt reads as digits: s without one leading '+' or '-'. */
  function Unsigned(s: string): string {
    if s != [] && (s[0] == '+' || s[0] == '-') then s[1..] else s
  }

  /** A magnitude with the sign s starts with. */
  function WithSign(s: string, magnitude: nat): int {
    if s != [] && s[0] == '-' then -(magnitude as int) else magnitude
  }

  /** parseInt accepts exactly an optional '+' or '-' followed by a non-empty run of
      decimal digits whose signed value is a Java int, and returns that value. */
  lemma ParseIntAccepts(s: string)
    ensures ParseInt(s).Some? <==>
      && Unsigned(s) != []
      && AllDigits(Unsigned(s))
      && ParseDigits(Unsigned(s)).Some?
      && InInt32(WithSign(s, ParseDigits(Unsigned(s)).value))
    ensures ParseInt(s).Some? ==> ParseInt(s).value == WithSign(s, ParseDigits(Unsigned(s)).value)
  {
    ParseDigitsAccepts(Unsigned(s));
    if s != [] && s[0] < '0' && s[0] != '+' && s[0] != '-' {
      assert !IsDigit(Unsigned(s)[0]);
    }
  }

  /** Leading zeros change nothing: "007" reads as 7. */
  lemma {:induction false} ParseDigitsLeadingZero(s: string)
    ensures ParseDigits("0" + s) == ParseDigits(s)
  {
    var z := "0" + s;
    if s == [] {
      assert z[..0] == [];
    } else {
      assert z[..|z| - 1] == "0" + s[..|s| - 1];
      ParseDigitsLeadingZero(s[..|s| - 1]);
    }
  }

  /** What parseInt accepts has no character trim would remove at either end:
      without the trim, a count followed by a newline would not parse. */
  lemma ParsedIsTrimmed(s: string)
    requires ParseInt(s).Some?
    ensures s != [] && !IsTrimmable(s[0]) && !IsTrimmable(s[|s| - 1])
  {
    var digits := if s[0] < '0' then s[1..] else s;
    ParseDigitsAccepts(digits);
    assert IsDigit(digits[|digits| - 1]);
    if s[0] >= '0' {
      assert IsDigit(digits[0]);
    }
  }

  /** The decimal form of a count, as `git rev-list --count` prints it: no sign and no
      leading zero. */
  function FormatDecimal(n: nat): (s: string)
    ensures s != [] && AllDigits(s)
    ensures s[0] == '0' ==> n == 0
  {
    if n < 10 then [DigitChar(n)] else FormatDecimal(n / 10) + [DigitChar(n % 10)]
  }

  /** The digit loop reads a printed count back exactly. */
  lemma {:induction false} ParseDigitsOfFormat(n: nat)
    ensures ParseDigits(FormatDecimal(n)) == Some(n)
  {
    var s := FormatDecimal(n);
    if n >= 10 {
      ParseDigitsOfFormat(n / 10);
      assert s[..|s| - 1] == FormatDecimal(n / 10);
    } else {
      assert s[..0] == [];
    }
  }

  /** Reading back a printed count gives the count exactly when it is a Java int. */
  lemma ParseIntOfDecimal(n: nat)
    ensures n <= IntMax ==> ParseInt(FormatDecimal(n)) == Some(n as int)
    ensures n > IntMax ==> ParseInt(FormatDecimal(n)).None?
  {
    ParseDigitsOfFormat(n);
  }

  /** With a leading '-', parseInt yields negative values, down to Integer.MIN_VALUE. */
  lemma ParseIntOfNegated(n: nat)
    ensures ParseInt("-" + FormatDecimal(n)) == if n <= -IntMin then Some(-(n as int)) else None
  {
    var s := "-" + FormatDecimal(n);
    assert s[1..] == FormatDecimal(n);
    ParseDigitsOfFormat(n);
  }

  /** A leading '+' is accepted and changes nothing. */
  lemma ParseIntOfPlus(n: nat)
    ensures ParseInt("+" + FormatDecimal(n)) == ParseInt(FormatDecimal(n))
  {
    var s := "+" + FormatDecimal(n);
    assert s[1..] == FormatDecimal(n);
  }

  /** Trimming and parsing a printed negative number recovers it. */
  lemma TrimParseOfNegated(n: nat)
    requires 0 < n <= -IntMin
    ensures ParseInt(Trim("-" + FormatDecimal(n))) == Some(-(n as int))
  {
    var s := "-" + FormatDecimal(n);
    assert [] + s + [] == s;
    TrimOfPadded([], s, []);
    ParseIntOfNegated(n);
  }
}
