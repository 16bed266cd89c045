/** Printing and parsing numbers: u., uwidth, spaces and .r of forthright.f, and _NUMBER of esp8266.S. */
module Numbers {
  import opened Options
  import opened Threaded

  // ----- digits -----

  /** What the digit of weight one looks like: '0' to '9', then 'A' to 'Z'. */
  function DigitChar(d: int): char
    requires 0 <= d < 36
  {
    if d < 10 then '0' + d as char else 'A' + (d - 10) as char
  }

  /** The digit that _NUMBER makes of a character, if it is one. */
  function DigitOf(c: char, base: int): Option<int> {
    var d := c as int - '0' as int;
    if d < 0 then None
    else
      var e := if d < 10 then d else d - 17 + 10;
      if d >= 10 && d - 17 < 0 then None else if e >= base then None else Some(e)
  }

  lemma DigitBack(d: int, base: int)
    requires 0 <= d < base <= 36
    ensures DigitOf(DigitChar(d), base) == Some(d) && DigitChar(d) != '-'
  {
  }

  /** `c` is what some digit below the base looks like. */
  predicate IsDigit(c: char, base: int)
    requires base <= 36
  {
    exists d :: 0 <= d < base && c == DigitChar(d)
  }

  /** A character is read as a digit exactly if it is what this digit, below the base, looks like. */
  lemma DigitIff(c: char, base: int, d: int)
    requires base <= 36
    ensures DigitOf(c, base) == Some(d) <==> 0 <= d < base && c == DigitChar(d)
    ensures DigitOf(c, base).Some? <==> IsDigit(c, base)
  {
    if DigitOf(c, base).Some? {
      assert c == DigitChar(DigitOf(c, base).value);
    }
  }

  /** The digits of a number that is not negative. */
  function Digits(n: nat, base: nat): (r: string)
    requires 2 <= base <= 36
    ensures r != []
    decreases n
  {
    Smaller(n, base);
    if Div(n, base) == 0 then [DigitChar(Mod(n, base))] else Digits(Div(n, base), base) + [DigitChar(Mod(n, base))]
  }

  function Div(n: nat, base: nat): (q: nat)
    requires base >= 1
  {
    n / base
  }

  function Mod(n: nat, base: nat): (r: nat)
    requires base >= 1
    ensures r < base
  {
    n % base
  }

  lemma Smaller(n: nat, base: nat)
    requires base >= 2
    ensures Div(n, base) != 0 ==> Div(n, base) < n
  {
    DivMod(n, base);
  }

  /** The value of a string of digits, without bounds. */
  function Value(s: string, base: int): Option<int> {
    if s == [] then Some(0)
    else
      var rest, d := Value(s[..|s| - 1], base), DigitOf(s[|s| - 1], base);
      if rest.None? || d.None? then None else Some(rest.value * base + d.value)
  }

  lemma ValueAppend(s: string, c: char, base: int)
    ensures Value(s + [c], base) ==
            (var rest, d := Value(s, base), DigitOf(c, base); if rest.None? || d.None? then None else Some(rest.value * base + d.value))
  {
    assert (s + [c])[..|s|] == s;
  }

  lemma DivMod(n: nat, base: nat)
    requires base >= 1
    ensures n == Div(n, base) * base + Mod(n, base) && Mod(n, base) < base
  {
  }

  lemma AppendDigit(s: string, q: nat, r: nat, base: nat)
    requires r < base <= 36 && Value(s, base) == Some(q)
    ensures Value(s + [DigitChar(r)], base) == Some(q * base + r)
  {
    DigitBack(r, base);
    ValueAppend(s, DigitChar(r), base);
  }

  lemma DigitsOf(n: nat, base: nat)
    requires 2 <= base <= 36
    ensures var c := DigitChar(Mod(n, base)); Digits(n, base) == if Div(n, base) == 0 then [c] else Digits(Div(n, base), base) + [c]
  {
  }

  lemma {:induction false} ValueOfDigits(n: nat, base: nat)
    requires 2 <= base <= 36
    ensures Value(Digits(n, base), base) == Some(n)
    decreases n
  {
    hide Value, DigitChar, Digits, Div, Mod;
    DigitsOf(n, base);
    if Div(n, base) != 0 {
      Smaller(n, base);
      ValueOfDigits(Div(n, base), base);
      AppendDigit(Digits(Div(n, base), base), Div(n, base), Mod(n, base), base);
    } else {
      ValueOfNothing(base);
      AppendDigit([], 0, Mod(n, base), base);
      assert [] + [DigitChar(Mod(n, base))] == [DigitChar(Mod(n, base))];
    }
    DivMod(n, base);
  }

  lemma {:induction false} NoSign(n: nat, base: nat)
    requires 2 <= base <= 36
    ensures forall i | 0 <= i < |Digits(n, base)| :: Digits(n, base)[i] != '-'
    decreases n
  {
    hide Div, Mod;
    DigitBack(Mod(n, base), base);
    if Div(n, base) != 0 {
      Smaller(n, base);
      NoSign(Div(n, base), base);
    }
  }

  lemma ValueOfNothing(base: int)
    ensures Value([], base) == Some(0)
  {
  }

  // ----- printing -----

  /** Signed 32-bit division of the C library, towards zero. */
  function Quot(a: int, b: int): int
    requires b > 0
  {
    if a >= 0 then a / b else -(-a / b)
  }

  function Rem(a: int, b: int): int
    requires b > 0
  {
    a - Quot(a, b) * b
  }

  function Spaces(k: int): (r: string) {
    if k <= 0 then [] else seq(k, _ => ' ')
  }

  /** What .r prints: a field of `width`, sign and digits at its right. */
  function Field(n: int, width: int, base: nat): string
    requires 2 <= base <= 36
  {
    var sign := if n < 0 then "-" else [];
    var digits := Digits(if n < 0 then -n else n, base);
    Spaces(width - |sign| - |digits|) + sign + digits
  }

  /** A field has the width asked for, or what sign and digits need if that is more. */
  lemma FieldWidth(n: int, width: int, base: nat)
    requires 2 <= base <= 36
    ensures var need := |Digits(if n < 0 then -n else n, base)| + if n < 0 then 1 else 0;
            |Field(n, width, base)| == if width > need then width else need
  {
  }

  /** Sign and digits are at the right of the field, and everything before them is blank. */
  lemma FieldBlank(n: int, width: int, base: nat)
    requires 2 <= base <= 36
    ensures var text, field := (if n < 0 then "-" else "") + Digits(if n < 0 then -n else n, base), Field(n, width, base);
            && |text| <= |field| && field[|field| - |text|..] == text
            && forall i | 0 <= i < |field| - |text| :: field[i] == ' '
  {
    hide Digits;
  }

  /** The machine while it prints: data stack, top first, and what has been emitted. */
  class Console {
    const base: nat
    var ds: seq<int>
    var out: string

    constructor (base0: nat)
      ensures base == base0 && ds == [] && out == []
    {
      base, ds, out := base0, [], [];
    }

    ghost predicate Valid()
      reads this
    {
      2 <= base <= 36
    }

    method Swap()
      requires |ds| >= 2
      modifies `ds
      ensures |old(ds)| >= 2 && ds == [old(ds)[1], old(ds)[0]] + old(ds)[2..]
    {
      ds := [ds[1], ds[0]] + ds[2..];
    }

    method Rot()
      requires |ds| >= 3
      modifies `ds
      ensures |old(ds)| >= 3 && ds == [old(ds)[2], old(ds)[0], old(ds)[1]] + old(ds)[3..]
    {
      ds := [ds[2], ds[0], ds[1]] + ds[3..];
    }

    /** spaces */
    method EmitSpaces()
      requires ds != []
      modifies `ds, `out
      ensures old(ds) != [] && ds == old(ds)[1..] && out == old(out) + Spaces(old(ds)[0])
    {
      var k := ds[0];
      while k > 0
        invariant ds == old(ds)
        invariant k <= old(ds)[0] && (old(ds)[0] >= 0 ==> k >= 0)
        invariant out == old(out) + Spaces(if old(ds)[0] <= 0 then 0 else old(ds)[0] - k)
        decreases k
      {
        out := out + [' '];
        k := k - 1;
      }
      ds := ds[1..];
    }

    /** u. of a number that is not negative as a signed one. */
    method UDot()
      requires Valid() && ds != [] && 0 <= ds[0] <= MAX32
      modifies `ds, `out
      ensures old(ds) != [] && old(ds)[0] >= 0 && Valid()
      ensures ds == old(ds)[1..] && out == old(out) + Digits(old(ds)[0], base)
      decreases ds[0]
    {
      // base @ u/mod
      var n := ds[0];
      ds := [Quot(n, base), Rem(n, base)] + ds[1..];
      QuotRem(n, base);
      // ?dup if recurse then
      if ds[0] != 0 {
        Smaller(n, base);
        UDot();
      } else {
        ds := ds[1..];
      }
      assert ds == [Mod(n, base)] + old(ds)[1..];
      // dup 10 < if '0' else 10 - 'A' then + emit
      var c := if ds[0] < 10 then '0' + ds[0] as char else 'A' + (ds[0] - 10) as char;
      ds := ds[1..];
      out := out + [c];
    }

    /** uwidth: the number of digits that u. will print. */
    method UWidth()
      requires Valid() && ds != [] && 0 <= ds[0] <= MAX32
      modifies `ds
      ensures old(ds) != [] && old(ds)[0] >= 0 && Valid()
      ensures ds == [|Digits(old(ds)[0], base)|] + old(ds)[1..]
      decreases ds[0]
    {
      var n := ds[0];
      QuotRem(n, base);
      ds := [Quot(n, base)] + ds[1..];
      if ds[0] != 0 {
        Smaller(n, base);
        UWidth();
        ds := [ds[0] + 1] + ds[1..];
      } else {
        ds := [1] + ds[1..];
      }
    }

    /** The first part of .r ( n width -- sign u rest ): sign apart, and out of the width. */
    method SplitSign(ghost n: int, ghost width: int, ghost rest: seq<int>)
      requires ds == [width, n] + rest
      modifies `ds
      ensures ds == [width - (if n < 0 then 1 else 0), if n < 0 then -n else n, if n < 0 then 1 else 0] + rest
    {
      Swap();
      assert ds == [n, width] + rest;
      // dup 0< if negate 1 swap rot 1- else 0 swap rot then
      if ds[0] < 0 {
        ds := [0 - ds[0]] + ds[1..];
        ds := [1] + ds;
        assert ds == [1, -n, width] + rest;
        Swap();
        assert ds == [-n, 1, width] + rest;
        Rot();
        assert ds == [width, -n, 1] + rest;
        ds := [ds[0] - 1] + ds[1..];
      } else {
        ds := [0] + ds;
        assert ds == [0, n, width] + rest;
        Swap();
        assert ds == [n, 0, width] + rest;
        Rot();
      }
    }

    /** The second part ( sign u width -- sign u ): spaces up to the sign. */
    method Pad(ghost sign: int, ghost u: nat, ghost width: int, ghost rest: seq<int>)
      requires Valid() && ds == [width, u, sign] + rest && u <= MAX32
      modifies `ds, `out
      ensures Valid() && ds == [u, sign] + rest && out == old(out) + Spaces(width - |Digits(u, base)|)
    {
      Swap();
      assert ds == [u, width, sign] + rest;
      ds := [ds[0]] + ds;
      UWidth();
      ghost var w := |Digits(u, base)|;
      assert ds == [w, u, width, sign] + rest;
      Rot();
      assert ds == [width, w, u, sign] + rest;
      Swap();
      assert ds == [w, width, u, sign] + rest;
      ds := [ds[1] - ds[0]] + ds[2..];
      assert ds == [width - w, u, sign] + rest;
      EmitSpaces();
    }

    /** .r ( n width -- ) */
    method DotR()
      requires Valid() && |ds| >= 2 && -MAX32 <= ds[1] <= MAX32
      modifies `ds, `out
      ensures Valid() && |old(ds)| >= 2 && ds == old(ds)[2..] && out == old(out) + Field(old(ds)[1], old(ds)[0], base)
    {
      hide Digits, Spaces, Field;
      ghost var n, width, rest, out0 := ds[1], ds[0], ds[2..], out;
      ghost var sign, u := if n < 0 then 1 else 0, if n < 0 then -n else n;
      assert ds == [width, n] + rest;
      SplitSign(n, width, rest);
      Pad(sign, u, width - sign, rest);
      Swap();
      var flag := ds[0];
      ds := ds[1..];
      if flag != 0 {
        out := out + ['-'];
      }
      assert ds == [u] + rest;
      UDot();
      FieldIs(n, width, base, out0);
    }
  }

  lemma FieldIs(n: int, width: int, base: nat, out: string)
    requires 2 <= base <= 36
    ensures var digits := Digits(if n < 0 then -n else n, base);
            var pad := out + Spaces(width - (if n < 0 then 1 else 0) - |digits|);
            (if n < 0 then pad + ['-'] else pad) + digits == out + Field(n, width, base)
  {
  }

  lemma QuotRem(n: nat, base: nat)
    requires base >= 2
    ensures Quot(n, base) == Div(n, base) && Rem(n, base) == Mod(n, base) && Div(n, base) >= 0 && Mod(n, base) < base
    ensures Div(n, base) <= n
  {
    DivMod(n, base);
  }

  // ----- parsing -----

  /** What _NUMBER makes of a string: minus sign, then at least one digit; 32-bit wrap-around. */
  function Parsed(s: string, base: int): Option<int> {
    if s == [] then None
    else if s[0] == '-' then
      if |s| == 1 then None
      else (var v := Value(s[1..], base); if v.None? then None else Some(Wrap(-v.value)))
    else (var v := Value(s, base); if v.None? then None else Some(Wrap(v.value)))
  }

  lemma WrapStep(v: int, base: int, d: int)
    ensures Wrap(Wrap(v) * base + d) == Wrap(v * base + d)
  {
    var q := (v + 0x8000_0000) / 0x1_0000_0000;
    assert Wrap(v) == v - q * 0x1_0000_0000;
    assert Wrap(v) * base + d == v * base + d - (q * base) * 0x1_0000_0000;
    WrapPeriod(v * base + d, -(q * base));
  }

  lemma WrapPeriod(x: int, k: int)
    ensures Wrap(x + k * 0x1_0000_0000) == Wrap(x)
  {
    ModPeriod(x + 0x8000_0000, k);
  }

  lemma {:induction false} ModPeriod(x: int, k: int)
    ensures (x + k * 0x1_0000_0000) % 0x1_0000_0000 == x % 0x1_0000_0000
    decreases if k < 0 then -k else k
  {
    if k > 0 {
      ModPeriod(x, k - 1);
    } else if k < 0 {
      ModPeriod(x, k + 1);
    }
  }

  lemma WrapNeg(v: int)
    ensures Wrap(-Wrap(v)) == Wrap(-v)
  {
    WrapStep(v, -1, 0);
  }

  /** _NUMBER: the value and the number of characters not parsed, which is 0 for success. It is 0 as well
      for the empty string and for a minus sign alone, which are errors. */
  method Number(s: string, base: int) returns (value: int, left: nat)
    requires 2 <= base <= 36
    ensures left == 0 <==> Parsed(s, base).Some? || s == [] || s == "-"
    ensures Parsed(s, base).Some? ==> value == Parsed(s, base).value
    ensures Parsed(s, base).None? ==> value == 0
    ensures var start := if s != [] && s[0] == '-' then 1 else 0;
            && left <= |s| - start && (forall i | start <= i < |s| - left :: IsDigit(s[i], base))
            && (left > 0 ==> !IsDigit(s[|s| - left], base))
  {
    hide DigitChar, DigitOf, IsDigit;
    if |s| == 0 {
      return 0, 0;
    }
    var negative := s[0] == '-';
    var i := if negative then 1 else 0;
    left := |s| - i;
    if left == 0 {
      // only a minus
      return 0, 0;
    }
    ghost var start := i;
    value := 0;
    while left != 0
      invariant start <= i <= |s| && left == |s| - i
      invariant Value(s[start..i], base).Some? && value == Wrap(Value(s[start..i], base).value)
      invariant forall j | start <= j < i :: IsDigit(s[j], base)
      decreases left
    {
      var d := ToDigit(s[i], base);
      ValueStep(s, start, i, base);
      DigitIff(s[i], base, 0);
      if d.None? {
        ValuePrefix(s[start..], i + 1 - start, base);
        assert s[start..][..i + 1 - start] == s[start..i + 1];
        return 0, left;
      }
      WrapStep(Value(s[start..i], base).value, base, d.value);
      value := Wrap(value * base + d.value);
      i := i + 1;
      left := left - 1;
    }
    assert s[start..i] == s[start..];
    if negative {
      WrapNeg(Value(s[1..], base).value);
      value := Wrap(-value);
    }
  }

  /** The digit of a character; 'A' is 17 after '0'. */
  method ToDigit(c: char, base: int) returns (d: Option<int>)
    requires 2 <= base <= 36
    ensures d == DigitOf(c, base)
  {
    var n := c as int - '0' as int;
    if n < 0 {
      return None;
    }
    if n >= 10 {
      n := n - 17;
      if n < 0 {
        return None;
      }
      n := n + 10;
    }
    if n >= base {
      return None;
    }
    return Some(n);
  }

  lemma ValueStep(s: string, a: nat, i: nat, base: int)
    requires a <= i < |s|
    ensures Value(s[a..i + 1], base) ==
            (var v, d := Value(s[a..i], base), DigitOf(s[i], base); if v.None? || d.None? then None else Some(v.value * base + d.value))
  {
    assert s[a..i + 1][..i - a] == s[a..i];
    assert s[a..i + 1][i - a] == s[i];
  }

  /** A string with a bad prefix is bad. */
  lemma {:induction false} ValuePrefix(s: string, n: nat, base: int)
    requires n <= |s| && Value(s[..n], base).None?
    ensures Value(s, base).None?
    decreases |s|
  {
    if n < |s| {
      assert s[..|s| - 1][..n] == s[..n];
      ValuePrefix(s[..|s| - 1], n, base);
    } else {
      assert s[..n] == s;
    }
  }

  /** What .r prints in a field of width 0 is read back as the same number, with nothing left. */
  lemma RoundTrip(n: int, base: nat)
    requires 2 <= base <= 36 && -MAX32 <= n <= MAX32
    ensures Parsed(Field(n, 0, base), base) == Some(n)
  {
    var u := if n < 0 then -n else n;
    var digits := Digits(u, base);
    ValueOfDigits(u, base);
    NoSign(u, base);
    WrapIdentity(n);
    if n < 0 {
      assert Field(n, 0, base) == ['-'] + digits;
      assert (['-'] + digits)[1..] == digits;
    } else {
      assert Field(n, 0, base) == digits;
      assert digits[0] != '-';
    }
  }

  /** The whole circle: print, then parse. */
  method PrintAndParse(n: int, base: nat) returns (value: int, left: nat)
    requires 2 <= base <= 36 && -MAX32 <= n <= MAX32
    ensures value == n && left == 0
  {
    var c := new Console(base);
    c.ds := [0, n];
    c.DotR();
    RoundTrip(n, base);
    assert c.out == Field(n, 0, base);
    value, left := Number(c.out, base);
  }
}
