/** kernel/vsprintf.c: the kernel's printf formatting. The output
    pointer advances one character at a time; the model builds the text
    written so far as a sequence, and the format string is read through
    At, which gives NUL past its end. Each argument slot is a 32-bit word,
    a string (for %s) or an address (for %n). */
module VSprintf {
  import opened Util
  import opened Proc
  import opened Bits

  /** One va_arg slot. */
  datatype Arg = Num(w: Word) | Text(s: seq<char>) | Ref(addr: int)

  /** What vsprintf produces: the text before the NUL it writes, and the
      (address, count) pairs that %n stored. */
  datatype Printed = Printed(text: seq<char>, stored: seq<(int, int)>)

  /** The flags of one conversion: ZEROPAD, SIGN, PLUS, SPACE, LEFT,
      SPECIAL and SMALL. */
  datatype Flags = Flags(zeropad: bool, sign: bool, plus: bool, space: bool, left: bool,
                         special: bool, small: bool)

  const NoFlags := Flags(false, false, false, false, false, false, false)

  /** *fmt, NUL at and past the end. */
  function At(fmt: seq<char>, p: int): (r: char)
  {
    if 0 <= p < |fmt| then fmt[p] else 0 as char
  }

  predicate IsDigit(c: char)
  {
    '0' <= c <= '9'
  }

  /** n copies of c; none when n is not positive. */
  function Rep(c: char, n: int): (r: seq<char>)
    ensures |r| == if n > 0 then n else 0
  {
    seq(if n > 0 then n else 0, _ => c)
  }

  /** Every character of Rep(c, n) is c. */
  lemma RepAll(c: char, n: int)
    ensures forall j :: 0 <= j < |Rep(c, n)| ==> Rep(c, n)[j] == c
  {
  }

  /** A run grows by one character at either end. */
  lemma RepSnoc(c: char, n: int)
    requires n >= 0
    ensures Rep(c, n + 1) == Rep(c, n) + [c] && Rep(c, n + 1) == [c] + Rep(c, n)
  {
    assert forall j :: 0 <= j < n + 1 ==> Rep(c, n + 1)[j] == (Rep(c, n) + [c])[j];
    assert forall j :: 0 <= j < n + 1 ==> Rep(c, n + 1)[j] == ([c] + Rep(c, n))[j];
  }

  // ---- digits ----

  /** digits[d]: the d-th character of "0123...XYZ" or of its lower-case
      variant. */
  function DigitChar(d: int, small: bool): (r: char)
    requires 0 <= d < 36
  {
    if d < 10 then (48 + d) as char
    else if small then (97 + d - 10) as char
    else (65 + d - 10) as char
  }

  /** The value of a digit character; 36 for anything else. */
  function CharValue(c: char): (r: int)
    ensures 0 <= r <= 36
  {
    if '0' <= c <= '9' then c as int - 48
    else if 'A' <= c <= 'Z' then c as int - 65 + 10
    else if 'a' <= c <= 'z' then c as int - 97 + 10
    else 36
  }

  lemma DigitCharValue(d: int, small: bool)
    requires 0 <= d < 36
    ensures CharValue(DigitChar(d, small)) == d
  {
  }

  /** The characters tmp[] holds, most significant first; none for 0. */
  function Digits(u: nat, base: int, small: bool): (r: seq<char>)
    requires 2 <= base <= 36
  {
    if u == 0 then [] else Digits(u / base, base, small) + [DigitChar(u % base, small)]
  }

  /** The value a string of digits denotes in base. */
  function Value(s: seq<char>, base: int): (r: int)
  {
    if s == [] then 0 else Value(s[..|s| - 1], base) * base + CharValue(s[|s| - 1])
  }

  /** Euclidean division by the base, stated once. */
  lemma DivMod(u: nat, base: int)
    requires 2 <= base <= 36
    ensures u == (u / base) * base + u % base && 0 <= u % base < base
    ensures u > 0 ==> u / base < u
    ensures u / base >= 0
  {
  }

  /** The digits read back as the number. */
  lemma {:induction false} DigitsValue(u: nat, base: int, small: bool)
    requires 2 <= base <= 36
    ensures Value(Digits(u, base, small), base) == u
  {
    if u > 0 {
      var q, d := u / base, u % base;
      DivMod(u, base);
      DigitsValue(q, base, small);
      var ds := Digits(u, base, small);
      assert ds[..|ds| - 1] == Digits(q, base, small);
      DigitCharValue(d, small);
      assert Value(ds, base) == Value(Digits(q, base, small), base) * base + d;
    }
  }

  /** A positive number's digits start with a nonzero digit and each lie
      below the base. */
  lemma {:induction false} DigitsShape(u: nat, base: int, small: bool)
    requires 2 <= base <= 36
    ensures var ds := Digits(u, base, small);
      (u > 0 ==> |ds| > 0 && ds[0] != '0') && forall j :: 0 <= j < |ds| ==> CharValue(ds[j]) < base
  {
    if u > 0 {
      var q, d := u / base, u % base;
      DivMod(u, base);
      DigitsShape(q, base, small);
      DigitCharValue(d, small);
      var ds := Digits(u, base, small);
      assert ds == Digits(q, base, small) + [DigitChar(d, small)];
      if q == 0 {
        assert d == u;
        assert ds[0] == DigitChar(d, small);
      }
    }
  }

  /** A 32-bit value has at most 32 digits, so tmp[36] never overflows. */
  lemma {:induction false} DigitsFit(u: nat, base: int, small: bool, k: nat)
    requires 2 <= base <= 36 && u < Pow2(k)
    ensures |Digits(u, base, small)| <= k
  {
    if u > 0 {
      var q := u / base;
      DivHalf(u, base);
      Pow2Step(k);
      DigitsFit(q, base, small, k - 1);
    }
  }

  lemma MulAtLeast(q: nat, k: nat)
    ensures q * k >= 0
  {
  }

  /** Dividing by a base of at least 2 at least halves. */
  lemma DivHalf(u: nat, base: int)
    requires 2 <= base <= 36
    ensures 2 * (u / base) <= u && u / base >= 0
  {
    var q := u / base;
    DivMod(u, base);
    MulAtLeast(q, base - 2);
  }

  lemma Pow2Step(k: nat)
    requires k > 0
    ensures Pow2(k) == 2 * Pow2(k - 1) && Pow2(0) == 1
  {
  }

  /** A run of '0's is worth 0. */
  lemma {:induction false} ZerosZero(n: int, base: int)
    ensures Value(Rep('0', n), base) == 0
    decreases n
  {
    if n > 0 {
      ZerosZero(n - 1, base);
      var z := Rep('0', n);
      assert z[..|z| - 1] == Rep('0', n - 1);
      assert Value(z, base) == 0 * base + 0;
    }
  }

  /** Leading zeros do not change a number's value. */
  lemma {:induction false} ZerosValue(n: int, s: seq<char>, base: int)
    ensures Value(Rep('0', n) + s, base) == Value(s, base)
    decreases |s|
  {
    if s == [] {
      assert Rep('0', n) + s == Rep('0', n);
      ZerosZero(n, base);
    } else {
      var z := Rep('0', n) + s;
      assert z[..|z| - 1] == Rep('0', n) + s[..|s| - 1];
      assert z[|z| - 1] == s[|s| - 1];
      ZerosValue(n, s[..|s| - 1], base);
    }
  }

  // ---- number() ----

  /** The sign character number() emits, 0 for none. */
  function SignChar(num: int, t: Flags): (r: char)
  {
    if t.sign && num < 0 then '-' else if t.plus then '+' else if t.space then ' ' else 0 as char
  }

  /** The value number() prints: the magnitude of a negative SIGN number,
      else the unsigned 32-bit pattern that divl divides. */
  function Magnitude(num: int, t: Flags): (r: nat)
    requires -0x8000_0000 <= num < 0x8000_0000
    ensures r < WORD
  {
    if t.sign && num < 0 then -num else ToWord(num)
  }

  /** The SPECIAL prefix: "0" for octal, "0x" or "0X" for hexadecimal. */
  function Prefix(base: int, t: Flags): (r: seq<char>)
  {
    if !t.special then []
    else if base == 8 then ['0']
    else if base == 16 then ['0', if t.small then 'x' else 'X']
    else []
  }

  /** The digits: "0" for zero, else the most significant digit first,
      padded with '0' to the precision. */
  function Body(u: nat, base: int, precision: int, small: bool): (r: seq<char>)
    requires 2 <= base <= 36
  {
    var ds := if u == 0 then ['0'] else Digits(u, base, small);
    Rep('0', precision - |ds|) + ds
  }

  /** The sign, if any, and the SPECIAL prefix. */
  function Head(num: int, base: int, t: Flags): (r: seq<char>)
  {
    SignPrefix(SignChar(num, t), base, t)
  }

  /** LEFT cancels ZEROPAD. */
  function Adjust(t: Flags): (r: Flags)
  {
    if t.left then t.(zeropad := false) else t
  }

  /** number(str, num, base, size, precision, type): the characters it
      writes, or None where it returns NULL for a base outside 2..36:
      the sign and prefix, then the digits, padded to size with spaces
      after them (LEFT), '0's between them (ZEROPAD) or spaces before. */
  function NumberSpec(num: int, base: int, size: int, precision: int, t: Flags): (r: Option<seq<char>>)
    requires -0x8000_0000 <= num < 0x8000_0000
  {
    var t := Adjust(t);
    if base < 2 || base > 36 then None
    else
      var head := Head(num, base, t);
      var body := Body(Magnitude(num, t), base, precision, t.small);
      Some(Field(t, head, body, size - |head| - |body|))
  }

  /** A field of pad more characters than head and body: spaces after
      them with LEFT, '0's between them with ZEROPAD, else spaces before. */
  function Field(t: Flags, head: seq<char>, body: seq<char>, pad: int): (r: seq<char>)
  {
    if t.left then head + body + Rep(' ', pad)
    else if t.zeropad then head + Rep('0', pad) + body
    else Rep(' ', pad) + head + body
  }

  /** number() gives NULL exactly for a base outside 2..36. */
  lemma NumberBase(num: int, base: int, size: int, precision: int, t: Flags)
    requires -0x8000_0000 <= num < 0x8000_0000
    ensures NumberSpec(num, base, size, precision, t).None? <==> base < 2 || base > 36
  {
  }

  /** The digits, zeros included, denote the printed value. */
  lemma BodyValue(u: nat, base: int, precision: int, small: bool)
    requires 2 <= base <= 36
    ensures Value(Body(u, base, precision, small), base) == u
  {
    var ds := if u == 0 then ['0'] else Digits(u, base, small);
    ZerosValue(precision - |ds|, ds, base);
    if u == 0 {
      assert Value(['0'], base) == 0 by {
        assert ['0'][..0] == [];
      }
    } else {
      DigitsValue(u, base, small);
    }
  }

  /** There are at least precision digits and at least one; they start
      with a nonzero digit unless the precision adds zeros or the value
      is 0, which prints as "0". */
  lemma BodyShape(u: nat, base: int, precision: int, small: bool)
    requires 2 <= base <= 36
    ensures var b := Body(u, base, precision, small);
      |b| >= precision && |b| >= 1 &&
      (u > 0 && precision <= |Digits(u, base, small)| ==> b[0] != '0') &&
      (u == 0 && precision <= 1 ==> b == ['0'])
    ensures var b := Body(u, base, precision, small);
      forall j :: 0 <= j < |b| ==> CharValue(b[j]) < base
  {
    DigitsShape(u, base, small);
    var ds := if u == 0 then ['0'] else Digits(u, base, small);
    var z := Rep('0', precision - |ds|);
    RepAll('0', precision - |ds|);
    assert Body(u, base, precision, small) == z + ds;
    Runs(z, ds);
    if precision <= |ds| {
      assert Rep('0', precision - |ds|) + ds == ds;
    }
  }

  /** The field is as wide as its width, or as its content when that is
      wider: sign, prefix and digits and nothing more. */
  lemma NumberWidth(num: int, base: int, size: int, precision: int, t: Flags)
    requires -0x8000_0000 <= num < 0x8000_0000 && 2 <= base <= 36
    ensures var t' := Adjust(t);
      var content := |Head(num, base, t')| + |Body(Magnitude(num, t'), base, precision, t'.small)|;
      |NumberSpec(num, base, size, precision, t).value| == if size > content then size else content
  {
  }

  /** With LEFT the field starts with the sign, prefix and digits and
      spaces fill the rest. */
  lemma NumberLeft(num: int, base: int, size: int, precision: int, t: Flags)
    requires -0x8000_0000 <= num < 0x8000_0000 && 2 <= base <= 36 && t.left
    ensures var head := Head(num, base, Adjust(t));
      var body := Body(Magnitude(num, Adjust(t)), base, precision, t.small);
      var r := NumberSpec(num, base, size, precision, t).value;
      |r| >= |head| + |body| && r[..|head| + |body|] == head + body &&
      forall j :: |head| + |body| <= j < |r| ==> r[j] == ' '
  {
    var head := Head(num, base, Adjust(t));
    var body := Body(Magnitude(num, Adjust(t)), base, precision, t.small);
    var pad := Rep(' ', size - |head| - |body|);
    RepAll(' ', size - |head| - |body|);
    var r := NumberSpec(num, base, size, precision, t).value;
    assert r == (head + body) + pad;
    Runs(head + body, pad);
    assert r[..|head| + |body|] == head + body;
  }

  /** With ZEROPAD and no LEFT the field starts with the sign and prefix,
      ends with the digits and '0's fill the gap. */
  lemma NumberZeroPad(num: int, base: int, size: int, precision: int, t: Flags)
    requires -0x8000_0000 <= num < 0x8000_0000 && 2 <= base <= 36 && !t.left && t.zeropad
    ensures var head := Head(num, base, t);
      var body := Body(Magnitude(num, t), base, precision, t.small);
      var r := NumberSpec(num, base, size, precision, t).value;
      |r| >= |head| + |body| && r[..|head|] == head && r[|r| - |body|..] == body &&
      forall j :: |head| <= j < |r| - |body| ==> r[j] == '0'
  {
    var head := Head(num, base, t);
    var body := Body(Magnitude(num, t), base, precision, t.small);
    var pad := Rep('0', size - |head| - |body|);
    RepAll('0', size - |head| - |body|);
    var r := NumberSpec(num, base, size, precision, t).value;
    assert r == head + (pad + body);
    Runs(head, pad + body);
    Runs(pad, body);
  }

  /** With neither LEFT nor ZEROPAD spaces come first and the sign and
      prefix come right before the digits, which end the field. */
  lemma NumberSpacePad(num: int, base: int, size: int, precision: int, t: Flags)
    requires -0x8000_0000 <= num < 0x8000_0000 && 2 <= base <= 36 && !t.left && !t.zeropad
    ensures var head := Head(num, base, t);
      var body := Body(Magnitude(num, t), base, precision, t.small);
      var r := NumberSpec(num, base, size, precision, t).value;
      |r| >= |head| + |body| && r[|r| - |head| - |body|..] == head + body &&
      forall j :: 0 <= j < |r| - |head| - |body| ==> r[j] == ' '
  {
    var head := Head(num, base, t);
    var body := Body(Magnitude(num, t), base, precision, t.small);
    var pad := Rep(' ', size - |head| - |body|);
    RepAll(' ', size - |head| - |body|);
    var r := NumberSpec(num, base, size, precision, t).value;
    assert r == pad + (head + body);
    Runs(pad, head + body);
  }

  /** The parts of a concatenation, by position. */
  lemma Runs(a: seq<char>, b: seq<char>)
    ensures (a + b)[..|a|] == a && (a + b)[|a|..] == b
    ensures forall j :: 0 <= j < |a| ==> (a + b)[j] == a[j]
    ensures forall j :: |a| <= j < |a| + |b| ==> (a + b)[j] == b[j - |a|]
  {
  }

  /** The sign: '-' for a negative SIGN number, else '+' with PLUS, else
      ' ' with SPACE, else none; a SIGN number prints its magnitude. */
  lemma SignMeans(num: int, t: Flags)
    requires -0x8000_0000 <= num < 0x8000_0000
    ensures t.sign && num < 0 ==> SignChar(num, t) == '-' && Magnitude(num, t) == -num
    ensures !(t.sign && num < 0) ==> SignChar(num, t) == (if t.plus then '+' else if t.space then ' ' else 0 as char)
    ensures t.sign && num >= 0 ==> Magnitude(num, t) == num
    ensures !t.sign && num < 0 ==> Magnitude(num, t) == num + WORD
  {
  }

  /** while (size-- > 0) *str++ = c; */
  method PadTo(s: seq<char>, c: char, size: int) returns (s': seq<char>, size': int)
    ensures s' == s + Rep(c, size)
    ensures size' == if size > 0 then -1 else size - 1
  {
    s', size' := s, size;
    while size' > 0
      invariant s' + Rep(c, size') == s + Rep(c, size) && (size > 0 ==> size' >= 0) && (size <= 0 ==> size' == size)
    {
      size' := size' - 1;
      RepSnoc(c, size');
      s' := s' + [c];
    }
    size' := size' - 1;
  }

  /** The sequence backwards. */
  function Reverse(s: seq<char>): (r: seq<char>)
    ensures |r| == |s|
  {
    if s == [] then [] else [s[|s| - 1]] + Reverse(s[..|s| - 1])
  }

  /** Reversing puts a first element last. */
  lemma {:induction false} ReverseCons(x: char, s: seq<char>)
    ensures Reverse([x] + s) == Reverse(s) + [x]
    decreases |s|
  {
    if s != [] {
      var t := [x] + s;
      assert t[..|t| - 1] == [x] + s[..|s| - 1];
      ReverseCons(x, s[..|s| - 1]);
    } else {
      assert Reverse([x]) == [x] + Reverse([]);
    }
  }

  /** The digit loop of number(): tmp[i++] = digits[do_div(num, base)]
      while num is not 0; tmp then holds the digits backwards. */
  method DigitLoop(u: nat, base: int, small: bool) returns (tmp: seq<char>)
    requires 2 <= base <= 36
    ensures Reverse(tmp) == Digits(u, base, small)
  {
    var n: nat := u;
    tmp := [];
    while n != 0
      invariant Digits(n, base, small) + Reverse(tmp) == Digits(u, base, small)
    {
      var q, d := DivBase(n, base);
      ghost var before := tmp;
      tmp := tmp + [DigitChar(d, small)];
      assert tmp[..|tmp| - 1] == before;
      assert Reverse(tmp) == [DigitChar(d, small)] + Reverse(before);
      n := q;
    }
  }

  /** do_div(num, base): the quotient and the remainder, which picks the
      next digit. */
  method DivBase(n: nat, base: int) returns (q: nat, d: nat)
    requires 2 <= base <= 36 && n > 0
    ensures q == n / base && d == n % base && d < base && q < n
    ensures Digits(n, base, false) == Digits(q, base, false) + [DigitChar(d, false)]
    ensures Digits(n, base, true) == Digits(q, base, true) + [DigitChar(d, true)]
  {
    DivMod(n, base);
    q, d := n / base, n % base;
  }

  /** while (i-- > 0) *str++ = tmp[i]; */
  method Backwards(s: seq<char>, tmp: seq<char>) returns (s': seq<char>)
    ensures s' == s + Reverse(tmp)
  {
    var i := |tmp|;
    s' := s;
    while i > 0
      invariant 0 <= i <= |tmp| && s' == s + Reverse(tmp[i..])
    {
      i := i - 1;
      assert tmp[i..] == [tmp[i]] + tmp[i + 1..];
      ReverseCons(tmp[i], tmp[i + 1..]);
      s' := s' + [tmp[i]];
    }
    assert tmp[0..] == tmp;
  }

  /** *str++ = sign (when there is one), then the SPECIAL prefix. */
  method WriteHead(s: seq<char>, sign: char, base: int, t: Flags) returns (s': seq<char>)
    ensures s' == s + SignPrefix(sign, base, t)
  {
    s' := s;
    if sign != 0 as char {
      s' := s' + [sign];
    }
    if t.special {
      if base == 8 {
        s' := s' + ['0'];
      } else if base == 16 {
        s' := s' + ['0', DigitChar(33, t.small)];
      }
    }
  }

  /** while (i < precision--) *str++ = '0'; */
  method ZeroFill(s: seq<char>, i: int, precision: int) returns (s': seq<char>)
    ensures s' == s + Rep('0', precision - i)
  {
    s' := s;
    var precision := precision;
    ghost var p0 := precision;
    while i < precision
      invariant s' == s + Rep('0', p0 - precision) && (i <= p0 ==> i <= precision <= p0)
      invariant i > p0 ==> precision == p0
      decreases precision - i
    {
      precision := precision - 1;
      s' := s' + ['0'];
    }
  }

  /** The spaces before the sign when neither ZEROPAD nor LEFT is set. */
  function Lead(t: Flags, size: int): (r: seq<char>)
  {
    if !t.zeropad && !t.left then Rep(' ', size) else []
  }

  /** The sign, if any, and the prefix. */
  function SignPrefix(sign: char, base: int, t: Flags): (r: seq<char>)
  {
    (if sign != 0 as char then [sign] else []) + Prefix(base, t)
  }

  /** The ZEROPAD '0's. */
  function Mid(t: Flags, size: int): (r: seq<char>)
  {
    if t.zeropad then Rep('0', size) else []
  }

  /** The spaces after the digits with LEFT. */
  function Trail(t: Flags, size: int): (r: seq<char>)
  {
    if t.left then Rep(' ', size) else []
  }

  /** The field in the order number() writes it. */
  lemma FieldParts(t: Flags, head: seq<char>, z: seq<char>, d: seq<char>, pad: int)
    requires !(t.left && t.zeropad)
    ensures Field(t, head, z + d, pad) == Lead(t, pad) + head + Mid(t, pad) + z + d + Trail(t, pad)
  {
    if t.left {
      assert Lead(t, pad) == [] && Mid(t, pad) == [];
      Joined([], head, [], z, d, Rep(' ', pad));
    } else if t.zeropad {
      assert Lead(t, pad) == [] && Trail(t, pad) == [];
      Joined([], head, Rep('0', pad), z, d, []);
    } else {
      assert Mid(t, pad) == [] && Trail(t, pad) == [];
      Joined(Rep(' ', pad), head, [], z, d, []);
    }
  }

  /** The precision's '0's and the digits from tmp backwards are the
      field's digits, precision of them. */
  lemma BodyLaid(u: nat, base: int, prec0: int, small: bool, tmp: seq<char>, precision: int)
    requires 2 <= base <= 36
    requires Reverse(tmp) == if u == 0 then ['0'] else Digits(u, base, small)
    requires precision == if |tmp| > prec0 then |tmp| else prec0
    ensures var body := Body(u, base, prec0, small);
      body == Rep('0', precision - |tmp|) + Reverse(tmp) && |body| == precision
  {
    var ds := Reverse(tmp);
    assert Body(u, base, prec0, small) == Rep('0', prec0 - |ds|) + ds;
    assert Rep('0', precision - |tmp|) == Rep('0', prec0 - |tmp|);
  }

  /** Regrouping the six parts number() writes. */
  lemma Joined(a: seq<char>, h: seq<char>, m: seq<char>, z: seq<char>, d: seq<char>, e: seq<char>)
    ensures a + h + m + z + d + e == a + h + m + (z + d) + e
    ensures a == [] && m == [] ==> a + h + m + z + d + e == h + (z + d) + e
    ensures a == [] && e == [] ==> a + h + m + z + d + e == h + m + (z + d)
    ensures m == [] && e == [] ==> a + h + m + z + d + e == a + h + (z + d)
  {
  }

  /** The writing half of number(): leading spaces unless ZEROPAD or
      LEFT, the sign and SPECIAL prefix, the ZEROPAD '0's unless LEFT,
      the precision's '0's, the digits from tmp backwards, and trailing
      spaces with whatever width is left. */
  method Layout(t: Flags, sign: char, base: int, tmp: seq<char>, precision: int, size: int, c: char)
      returns (s: seq<char>)
    requires (c == '0' <==> t.zeropad) && (c == '0' || c == ' ') && !(t.left && t.zeropad)
    ensures s == Field(t, SignPrefix(sign, base, t), Rep('0', precision - |tmp|) + Reverse(tmp), size)
  {
    var size := size;
    ghost var pad := size;
    s := [];
    if !(t.zeropad || t.left) {
      s, size := PadTo(s, ' ', size);
    }
    assert s == Lead(t, pad);
    assert !(t.zeropad || t.left) ==> size < 0;
    assert t.zeropad || t.left ==> size == pad;
    s := WriteHead(s, sign, base, t);
    ghost var s2 := s;
    if !t.left {
      s, size := PadTo(s, c, size);
    }
    assert s == s2 + Mid(t, pad) by {
      if !t.left && !t.zeropad {
        assert Rep(c, size) == [];
      }
    }
    assert !t.left ==> size < 0;
    ghost var s3 := s;
    s := ZeroFill(s, |tmp|, precision);
    s := Backwards(s, tmp);
    ghost var s4 := s;
    s, size := PadTo(s, ' ', size);
    assert s == s4 + Trail(t, pad) by {
      if !t.left {
        assert Rep(' ', size) == [];
      }
    }
    FieldParts(t, SignPrefix(sign, base, t), Rep('0', precision - |tmp|), Reverse(tmp), pad);
  }

  /** The sign number() emits and the value whose digits it prints. */
  method SignOf(num: int, ty: Flags) returns (sign: char, u: nat)
    requires -0x8000_0000 <= num < 0x8000_0000
    ensures sign == SignChar(num, ty) && u == Magnitude(num, ty)
  {
    if ty.sign && num < 0 {
      sign, u := '-', -num;
    } else {
      sign := if ty.plus then '+' else if ty.space then ' ' else 0 as char;
      u := ToWord(num);
    }
  }

  /** size less the room the sign and the SPECIAL prefix take. */
  method HeadRoom(size: int, sign: char, base: int, ty: Flags) returns (size': int)
    ensures size' == size - |SignPrefix(sign, base, ty)|
  {
    size' := size;
    if sign != 0 as char {
      size' := size' - 1;
    }
    if ty.special {
      if base == 16 {
        size' := size' - 2;
      } else if base == 8 {
        size' := size' - 1;
      }
    }
  }

  /** tmp[]: "0" for zero, else the digits from the least significant. */
  method TmpDigits(u: nat, base: int, small: bool) returns (tmp: seq<char>)
    requires 2 <= base <= 36
    ensures Reverse(tmp) == if u == 0 then ['0'] else Digits(u, base, small)
  {
    if u == 0 {
      tmp := ['0'];
      assert Reverse(['0']) == ['0'] + Reverse([]);
    } else {
      tmp := DigitLoop(u, base, small);
    }
  }

  /** What number() writes is the field NumberSpec describes. */
  lemma NumberIsField(num: int, base: int, size0: int, prec0: int, t: Flags, sign: char, tmp: seq<char>,
                      precision: int, size: int)
    requires -0x8000_0000 <= num < 0x8000_0000 && 2 <= base <= 36
    requires sign == SignChar(num, Adjust(t))
    requires var u := Magnitude(num, Adjust(t));
      Reverse(tmp) == if u == 0 then ['0'] else Digits(u, base, t.small)
    requires precision == if |tmp| > prec0 then |tmp| else prec0
    requires size == size0 - |SignPrefix(sign, base, Adjust(t))| - precision
    ensures NumberSpec(num, base, size0, prec0, t) ==
            Some(Field(Adjust(t), SignPrefix(sign, base, Adjust(t)), Rep('0', precision - |tmp|) + Reverse(tmp), size))
  {
    var ty := Adjust(t);
    var u := Magnitude(num, ty);
    var head := Head(num, base, ty);
    var body := Body(u, base, prec0, t.small);
    NumberSpecIs(num, base, size0, prec0, t);
    BodyLaid(u, base, prec0, t.small, tmp, precision);
    Substituted(NumberSpec(num, base, size0, prec0, t), ty, head, body, size0 - |head| - |body|,
                SignPrefix(sign, base, ty), Rep('0', precision - |tmp|) + Reverse(tmp), size);
  }

  /** NumberSpec for a base it accepts. */
  lemma NumberSpecIs(num: int, base: int, size: int, precision: int, t: Flags)
    requires -0x8000_0000 <= num < 0x8000_0000 && 2 <= base <= 36
    ensures var ty := Adjust(t);
      var head := Head(num, base, ty);
      var body := Body(Magnitude(num, ty), base, precision, t.small);
      NumberSpec(num, base, size, precision, t) == Some(Field(ty, head, body, size - |head| - |body|))
  {
    assert Adjust(t).small == t.small;
  }

  /** Equal parts make an equal field. */
  lemma Substituted(x: Option<seq<char>>, t: Flags, h: seq<char>, b: seq<char>, p: int, h': seq<char>, b': seq<char>, p': int)
    requires x == Some(Field(t, h, b, p)) && h == h' && b == b' && p == p'
    ensures x == Some(Field(t, h', b', p'))
  {
  }

  /** number(): the characters written for num, or None for the NULL
      returned on a base outside 2..36. */
  method Number(num: int, base: int, size': int, precision': int, t: Flags) returns (r: Option<seq<char>>)
    requires -0x8000_0000 <= num < 0x8000_0000
    ensures r == NumberSpec(num, base, size', precision', t)
  {
    var ty := t;
    if ty.left {
      ty := ty.(zeropad := false);
    }
    if base < 2 || base > 36 {
      return None;
    }
    var c := if ty.zeropad then '0' else ' ';
    var sign, u := SignOf(num, ty);
    var size := HeadRoom(size', sign, base, ty);
    var tmp := TmpDigits(u, base, ty.small);
    var i := |tmp|;
    var precision := precision';
    if i > precision {
      precision := i;
    }
    size := size - precision;
    var s := Layout(ty, sign, base, tmp, precision, size, c);
    NumberIsField(num, base, size', precision', t, sign, tmp, precision, size);
    r := Some(s);
  }

  // ---- the directive ----

  /** The flag characters of a conversion. */
  predicate IsFlag(c: char)
  {
    c == '-' || c == '+' || c == ' ' || c == '#' || c == '0'
  }

  /** flags |= the flag c stands for. */
  function SetFlag(t: Flags, c: char): (r: Flags)
  {
    if c == '-' then t.(left := true)
    else if c == '+' then t.(plus := true)
    else if c == ' ' then t.(space := true)
    else if c == '#' then t.(special := true)
    else t.(zeropad := true)
  }

  /** The repeat: loop: the flags set by the flag characters from p on,
      and where they end. */
  function FlagsFrom(fmt: seq<char>, p: int, t: Flags): (r: (Flags, int))
    requires 0 <= p <= |fmt|
    ensures p <= r.1 <= |fmt| && !IsFlag(At(fmt, r.1))
    ensures forall j :: p <= j < r.1 ==> IsFlag(fmt[j])
    decreases |fmt| - p
  {
    if IsFlag(At(fmt, p)) then FlagsFrom(fmt, p + 1, SetFlag(t, At(fmt, p))) else (t, p)
  }

  /** The flag the flag character c stands for. */
  function FlagOf(t: Flags, c: char): (r: bool)
  {
    if c == '-' then t.left
    else if c == '+' then t.plus
    else if c == ' ' then t.space
    else if c == '#' then t.special
    else t.zeropad
  }

  /** Setting the flag d sets FlagOf(_, d) and no other flag. */
  lemma SetFlagOf(t: Flags, d: char, c: char)
    requires IsFlag(d) && IsFlag(c)
    ensures FlagOf(SetFlag(t, d), c) <==> FlagOf(t, c) || c == d
    ensures SetFlag(t, d).sign == t.sign && SetFlag(t, d).small == t.small
  {
  }

  /** A flag is set after the run exactly when it was set before or its
      character occurs in the run; SIGN and SMALL are left alone. */
  lemma {:induction false} FlagsMeans(fmt: seq<char>, p: int, t: Flags, c: char)
    requires 0 <= p <= |fmt| && IsFlag(c)
    ensures var r := FlagsFrom(fmt, p, t);
      (FlagOf(r.0, c) <==> FlagOf(t, c) || c in fmt[p..r.1]) && r.0.sign == t.sign && r.0.small == t.small
    decreases |fmt| - p
  {
    var r := FlagsFrom(fmt, p, t);
    if IsFlag(At(fmt, p)) {
      var t' := SetFlag(t, fmt[p]);
      SetFlagOf(t, fmt[p], c);
      FlagsMeans(fmt, p + 1, t', c);
      assert r == FlagsFrom(fmt, p + 1, t');
      assert fmt[p..r.1] == [fmt[p]] + fmt[p + 1..r.1];
    } else {
      assert fmt[p..r.1] == [];
    }
  }

  /** The ParseFlags loop: ++fmt and switch (*fmt) until a character that
      is no flag. */
  method ParseFlags(fmt: seq<char>, p: int) returns (t: Flags, q: int)
    requires 0 <= p <= |fmt|
    ensures (t, q) == FlagsFrom(fmt, p, NoFlags)
  {
    t, q := NoFlags, p;
    while IsFlag(At(fmt, q))
      invariant p <= q <= |fmt| && FlagsFrom(fmt, q, t) == FlagsFrom(fmt, p, NoFlags)
      decreases |fmt| - q
    {
      t := SetFlag(t, fmt[q]);
      q := q + 1;
    }
  }

  /** Where the run of decimal digits from p ends. */
  function DigitsEnd(fmt: seq<char>, p: int): (q: int)
    requires 0 <= p <= |fmt|
    ensures p <= q <= |fmt| && !IsDigit(At(fmt, q))
    ensures forall j :: p <= j < q ==> IsDigit(fmt[j])
    decreases |fmt| - p
  {
    if IsDigit(At(fmt, p)) then DigitsEnd(fmt, p + 1) else p
  }

  /** A string of decimal digits is worth at least 0. */
  lemma {:induction false} DecimalNonneg(s: seq<char>)
    requires forall j :: 0 <= j < |s| ==> IsDigit(s[j])
    ensures Value(s, 10) >= 0
  {
    if s != [] {
      DecimalNonneg(s[..|s| - 1]);
    }
  }

  /** skip_atoi(&fmt): the value of the digits from p and where they
      end. */
  method SkipAtoi(fmt: seq<char>, p: int) returns (i: int, q: int)
    requires 0 <= p <= |fmt|
    ensures q == DigitsEnd(fmt, p) && i == Value(fmt[p..q], 10) && i >= 0
  {
    i, q := 0, p;
    assert fmt[p..p] == [];
    while IsDigit(At(fmt, q))
      invariant p <= q <= |fmt| && DigitsEnd(fmt, q) == DigitsEnd(fmt, p) && i == Value(fmt[p..q], 10)
      decreases |fmt| - q
    {
      assert fmt[p..q + 1][..q - p] == fmt[p..q];
      i := i * 10 + fmt[q] as int - 48;
      q := q + 1;
    }
    DecimalNonneg(fmt[p..q]);
  }

  /** -x in 32-bit arithmetic: the most negative int is its own negation. */
  function Neg32(x: int): (r: int)
    requires -0x8000_0000 <= x < 0x8000_0000
    ensures x != -0x8000_0000 ==> r == -x
    ensures x == -0x8000_0000 ==> r == x
  {
    Signed(ToWord(-x))
  }

  /** A width or precision as parsed: the flags, the value, where the
      format goes on and the next argument slot. */
  datatype Parsed = Parsed(flags: Flags, value: int, end: int, next: nat)

  /** The field width at q: digits, or '*' for the next argument, a
      negative one meaning LEFT and its magnitude; -1 for none. With fix
      unset the '*' is left under fmt as the source does; with fix set
      fmt steps past it. None when the argument is not a number. */
  function WidthSpec(fmt: seq<char>, q: int, args: seq<Arg>, k: nat, t: Flags, fix: bool): (r: Option<Parsed>)
    requires 0 <= q <= |fmt|
    ensures r.Some? ==> q <= r.value.end <= |fmt| && r.value.next <= k + 1
  {
    if IsDigit(At(fmt, q)) then
      var e := DigitsEnd(fmt, q);
      Some(Parsed(t, Value(fmt[q..e], 10), e, k))
    else if At(fmt, q) == '*' then
      if k < |args| && args[k].Num? then
        var w := Signed(args[k].w);
        var e := if fix then q + 1 else q;
        if w < 0 then Some(Parsed(t.(left := true), Neg32(w), e, k + 1))
        else Some(Parsed(t, w, e, k + 1))
      else None
    else Some(Parsed(t, -1, q, k))
  }

  /** The precision at q: after '.', digits, or '*' for the next
      argument; negative becomes 0; -1 without '.'. */
  function PrecisionSpec(fmt: seq<char>, q: int, args: seq<Arg>, k: nat, t: Flags, fix: bool): (r: Option<Parsed>)
    requires 0 <= q <= |fmt|
    ensures r.Some? ==> q <= r.value.end <= |fmt| && r.value.flags == t
  {
    if At(fmt, q) != '.' then Some(Parsed(t, -1, q, k))
    else
      var q1 := q + 1;
      if IsDigit(At(fmt, q1)) then
        var e := DigitsEnd(fmt, q1);
        Some(Parsed(t, Value(fmt[q1..e], 10), e, k))
      else if At(fmt, q1) == '*' then
        if k < |args| && args[k].Num? then
          var v := Signed(args[k].w);
          Some(Parsed(t, if v < 0 then 0 else v, if fix then q1 + 1 else q1, k + 1))
        else None
      else Some(Parsed(t, 0, q1, k))
  }

  predicate IsQualifier(c: char)
  {
    c == 'h' || c == 'l' || c == 'L'
  }

  /** A parsed conversion: its flags, field width and precision, the
      index of its conversion character and the next argument slot. */
  datatype Directive = Directive(flags: Flags, width: int, precision: int, at: int, next: nat)

  /** The conversion whose '%' is at p. */
  function ParseDirective(fmt: seq<char>, p: int, args: seq<Arg>, k: nat, fix: bool): (r: Option<Directive>)
    requires 0 <= p < |fmt|
    ensures r.Some? ==> p < r.value.at <= |fmt|
  {
    var (t, q) := FlagsFrom(fmt, p + 1, NoFlags);
    match WidthSpec(fmt, q, args, k, t, fix)
    case None => None
    case Some(w) =>
      match PrecisionSpec(fmt, w.end, args, w.next, w.flags, fix)
      case None => None
      case Some(pr) =>
        var at := if IsQualifier(At(fmt, pr.end)) then pr.end + 1 else pr.end;
        Some(Directive(w.flags, w.value, pr.value, at, pr.next))
  }

  /** The width part of the conversion loop. */
  method ParseWidth(fmt: seq<char>, q: int, args: seq<Arg>, k: nat, t: Flags) returns (r: Option<Parsed>)
    requires 0 <= q <= |fmt|
    ensures r == WidthSpec(fmt, q, args, k, t, true)
  {
    if IsDigit(At(fmt, q)) {
      var i, e := SkipAtoi(fmt, q);
      return Some(Parsed(t, i, e, k));
    } else if At(fmt, q) == '*' {
      if !(k < |args| && args[k].Num?) {
        return None;
      }
      var w := Signed(args[k].w);
      var t := t;
      if w < 0 {
        w := Neg32(w);
        t := t.(left := true);
      }
      return Some(Parsed(t, w, q + 1, k + 1));
    }
    return Some(Parsed(t, -1, q, k));
  }

  /** The precision part of the conversion loop. */
  method ParsePrecision(fmt: seq<char>, q: int, args: seq<Arg>, k: nat, t: Flags) returns (r: Option<Parsed>)
    requires 0 <= q <= |fmt|
    ensures r == PrecisionSpec(fmt, q, args, k, t, true)
  {
    if At(fmt, q) != '.' {
      return Some(Parsed(t, -1, q, k));
    }
    var q := q + 1;
    var precision := -1;
    var k := k;
    if IsDigit(At(fmt, q)) {
      precision, q := SkipAtoi(fmt, q);
    } else if At(fmt, q) == '*' {
      if !(k < |args| && args[k].Num?) {
        return None;
      }
      precision := Signed(args[k].w);
      q, k := q + 1, k + 1;
    }
    if precision < 0 {
      precision := 0;
    }
    return Some(Parsed(t, precision, q, k));
  }

  /** Flags, width, precision and qualifier of the conversion at p. */
  method Parse(fmt: seq<char>, p: int, args: seq<Arg>, k: nat) returns (r: Option<Directive>)
    requires 0 <= p < |fmt|
    ensures r == ParseDirective(fmt, p, args, k, true)
  {
    var t, q := ParseFlags(fmt, p + 1);
    var w := ParseWidth(fmt, q, args, k, t);
    if w.None? {
      return None;
    }
    var pr := ParsePrecision(fmt, w.value.end, args, w.value.next, w.value.flags);
    if pr.None? {
      return None;
    }
    var at := pr.value.end;
    if IsQualifier(At(fmt, at)) {
      at := at + 1;
    }
    return Some(Directive(w.value.flags, w.value.value, pr.value.value, at, pr.value.next));
  }

  // ---- the conversions ----

  /** What one conversion gives: its characters, the %n stores and the
      next argument slot. */
  datatype Emitted = Emitted(out: seq<char>, stored: seq<(int, int)>, next: nat)

  /** strlen of a %s argument: up to its first NUL, or all of it. */
  function StrLen(s: seq<char>): (r: nat)
    ensures r <= |s| && (r < |s| ==> s[r] == 0 as char) && 0 as char !in s[..r]
  {
    if s == [] || s[0] == 0 as char then 0
    else
      var n := StrLen(s[1..]);
      assert s[..n + 1] == [s[0]] + s[1..][..n];
      n + 1
  }

  /** %c: the argument's low byte, width - 1 spaces before it or, with
      LEFT, after it. */
  function CharConv(t: Flags, width: int, w: Word): (r: seq<char>)
  {
    var ch := (w % 256) as char;
    if t.left then [ch] + Rep(' ', width - 1) else Rep(' ', width - 1) + [ch]
  }

  /** %s: the string cut to the precision when there is one, padded to
      the width with spaces before it or, with LEFT, after it. */
  function StringConv(t: Flags, width: int, precision: int, s: seq<char>): (r: seq<char>)
  {
    var n := StrLen(s);
    var len := if precision >= 0 && n > precision then precision else n;
    if t.left then s[..len] + Rep(' ', width - len) else Rep(' ', width - len) + s[..len]
  }

  predicate IsNumeric(c: char)
  {
    c == 'o' || c == 'p' || c == 'x' || c == 'X' || c == 'd' || c == 'i' || c == 'u'
  }

  /** The base, flags and width number() is called with: octal, hex with
      SMALL for 'x', %p 8 wide zero-padded unless a width was given, and
      SIGN for 'd' and 'i'. */
  function NumericArgs(c: char, t: Flags, width: int): (r: (int, Flags, int))
    requires IsNumeric(c)
    ensures 2 <= r.0 <= 36
  {
    if c == 'o' then (8, t, width)
    else if c == 'p' then (if width == -1 then (16, t.(zeropad := true), 8) else (16, t, width))
    else if c == 'x' then (16, t.(small := true), width)
    else if c == 'X' then (16, t, width)
    else if c == 'd' || c == 'i' then (10, t.(sign := true), width)
    else (10, t, width)
  }

  /** The conversion character c (NUL at the end of the format) with its
      flags, width and precision; count is how much has been written.
      None when the argument slot does not hold what c reads. */
  function Convert(c: char, t: Flags, width: int, precision: int, args: seq<Arg>, k: nat, count: int): (r: Option<Emitted>)
    ensures r.Some? ==> k <= r.value.next <= k + 1
    ensures r.Some? && r.value.stored != [] ==> c == 'n' && k < |args| && args[k].Ref? && r.value.stored == [(args[k].addr, count)]
  {
    if c == 'c' then
      if k < |args| && args[k].Num? then Some(Emitted(CharConv(t, width, args[k].w), [], k + 1)) else None
    else if c == 's' then
      if k < |args| && args[k].Text? then Some(Emitted(StringConv(t, width, precision, args[k].s), [], k + 1)) else None
    else if IsNumeric(c) then
      if k < |args| && args[k].Num? then
        var (base, t', width') := NumericArgs(c, t, width);
        NumberBase(Signed(args[k].w), base, width', precision, t');
        Some(Emitted(NumberSpec(Signed(args[k].w), base, width', precision, t').value, [], k + 1))
      else None
    else if c == 'n' then
      if k < |args| && args[k].Ref? then Some(Emitted([], [(args[k].addr, count)], k + 1)) else None
    else Some(Emitted((if c != '%' then ['%'] else []) + (if c != 0 as char then [c] else []), [], k))
  }

  /** while (--field_width > 0) *str++ = ' '; */
  method PreDecPad(s: seq<char>, width: int) returns (s': seq<char>, width': int)
    ensures s' == s + Rep(' ', width - 1)
    ensures width' == if width >= 1 then 0 else width - 1
  {
    s', width' := s, width - 1;
    while width' > 0
      invariant s' + Rep(' ', width') == s + Rep(' ', width - 1)
      invariant width >= 1 ==> width' >= 0
      invariant width < 1 ==> width' == width - 1
    {
      width' := width' - 1;
      RepSnoc(' ', width');
      s' := s' + [' '];
    }
  }

  /** while (len < field_width--) *str++ = ' '; */
  method PostDecPad(s: seq<char>, len: int, width: int) returns (s': seq<char>, width': int)
    ensures s' == s + Rep(' ', width - len)
    ensures width' == (if width > len then len else width) - 1
  {
    s', width' := s, width;
    while len < width'
      invariant s' + Rep(' ', width' - len) == s + Rep(' ', width - len)
      invariant width > len ==> len <= width'
      invariant width <= len ==> width' == width
      decreases width' - len
    {
      RepSnoc(' ', width' - len - 1);
      width' := width' - 1;
      s' := s' + [' '];
    }
    width' := width' - 1;
  }

  /** for (i = 0; i < len; ++i) *str++ = *s++; */
  method CopyChars(s: seq<char>, src: seq<char>, len: int) returns (s': seq<char>)
    requires 0 <= len <= |src|
    ensures s' == s + src[..len]
  {
    s' := s;
    for i := 0 to len
      invariant s' == s + src[..i]
    {
      assert src[..i + 1] == src[..i] + [src[i]];
      s' := s' + [src[i]];
    }
  }

  /** case 'c'. */
  method EmitChar(t: Flags, width: int, w: Word) returns (s: seq<char>)
    ensures s == CharConv(t, width, w)
  {
    var width := width;
    s := [];
    if !t.left {
      s, width := PreDecPad(s, width);
    }
    s := s + [(w % 256) as char];
    s, width := PreDecPad(s, width);
  }

  /** case 's'. */
  method EmitString(t: Flags, width: int, precision: int, str: seq<char>) returns (s: seq<char>)
    ensures s == StringConv(t, width, precision, str)
  {
    var len := StrLen(str);
    var precision := precision;
    if precision < 0 {
      precision := len;
    } else if len > precision {
      len := precision;
    }
    var width := width;
    s := [];
    if !t.left {
      s, width := PostDecPad(s, len, width);
    }
    s := CopyChars(s, str, len);
    s, width := PostDecPad(s, len, width);
  }

  /** cases 'o', 'p', 'x', 'X', 'd', 'i' and 'u'. */
  method EmitNumber(c: char, t: Flags, width: int, precision: int, w: Word) returns (s: seq<char>)
    requires IsNumeric(c)
    ensures var (base, t', width') := NumericArgs(c, t, width);
      2 <= base <= 36 && s == NumberSpec(Signed(w), base, width', precision, t').value
  {
    var t := t;
    var width := width;
    var base := 10;
    if c == 'o' {
      base := 8;
    } else if c == 'p' {
      if width == -1 {
        width := 8;
        t := t.(zeropad := true);
      }
      base := 16;
    } else if c == 'x' || c == 'X' {
      if c == 'x' {
        t := t.(small := true);
      }
      base := 16;
    } else if c == 'd' || c == 'i' {
      t := t.(sign := true);
    }
    var r := Number(Signed(w), base, width, precision, t);
    NumberBase(Signed(w), base, width, precision, t);
    s := r.value;
  }

  /** switch (*fmt): one conversion. */
  method Emit(c: char, t: Flags, width: int, precision: int, args: seq<Arg>, k: nat, count: int)
      returns (r: Option<Emitted>)
    ensures r == Convert(c, t, width, precision, args, k, count)
  {
    if c == 'c' || c == 's' || IsNumeric(c) || c == 'n' {
      if k >= |args| {
        return None;
      }
    }
    if c == 'c' {
      if !args[k].Num? {
        return None;
      }
      var s := EmitChar(t, width, args[k].w);
      return Some(Emitted(s, [], k + 1));
    } else if c == 's' {
      if !args[k].Text? {
        return None;
      }
      var s := EmitString(t, width, precision, args[k].s);
      return Some(Emitted(s, [], k + 1));
    } else if IsNumeric(c) {
      if !args[k].Num? {
        return None;
      }
      var s := EmitNumber(c, t, width, precision, args[k].w);
      return Some(Emitted(s, [], k + 1));
    } else if c == 'n' {
      if !args[k].Ref? {
        return None;
      }
      return Some(Emitted([], [(args[k].addr, count)], k + 1));
    }
    var out: seq<char> := [];
    if c != '%' {
      out := out + ['%'];
    }
    assert out == if c != '%' then ['%'] else [];
    if c != 0 as char {
      out := out + [c];
    }
    assert out == (if c != '%' then ['%'] else []) + (if c != 0 as char then [c] else []);
    return Some(Emitted(out, [], k));
  }

  // ---- vsprintf() ----

  /** The rest of the format from p, with acc written so far and the
      arguments from slot k on: literal characters are copied, each '%'
      starts a conversion, and the format's NUL ends it. None when an
      argument slot does not hold what its conversion reads, which C
      leaves undefined. fix selects whether a '*' is stepped over. */
  function FormatFrom(fmt: seq<char>, p: int, args: seq<Arg>, k: nat, acc: Printed, fix: bool): (r: Option<Printed>)
    requires 0 <= p <= |fmt|
    decreases |fmt| - p
  {
    var c := At(fmt, p);
    if c == 0 as char then Some(acc)
    else if c != '%' then FormatFrom(fmt, p + 1, args, k, Printed(acc.text + [c], acc.stored), fix)
    else
      match ParseDirective(fmt, p, args, k, fix)
      case None => None
      case Some(d) =>
        match Convert(At(fmt, d.at), d.flags, d.width, d.precision, args, d.next, |acc.text|)
        case None => None
        case Some(e) =>
          var q := if At(fmt, d.at) == 0 as char then d.at else d.at + 1;
          FormatFrom(fmt, q, args, e.next, Printed(acc.text + e.out, acc.stored + e.stored), fix)
  }

  /** What vsprintf(buf, fmt, args) writes before its NUL, and the %n
      stores; it returns the length of the text. */
  function Format(fmt: seq<char>, args: seq<Arg>): (r: Option<Printed>)
  {
    FormatFrom(fmt, 0, args, 0, Printed([], []), true)
  }

  /** The same with the '*' left under fmt, as the source has it. */
  function FormatAsWritten(fmt: seq<char>, args: seq<Arg>): (r: Option<Printed>)
  {
    FormatFrom(fmt, 0, args, 0, Printed([], []), false)
  }

  /** vsprintf(buf, fmt, args): the text written into buf and the %n
      stores, or None for an argument list that does not match. */
  method Vsprintf(fmt: seq<char>, args: seq<Arg>) returns (r: Option<Printed>)
    ensures r == Format(fmt, args)
  {
    var p, k: nat, text, stored := 0, 0, [], [];
    while At(fmt, p) != 0 as char
      invariant 0 <= p <= |fmt|
      invariant FormatFrom(fmt, p, args, k, Printed(text, stored), true) == Format(fmt, args)
      decreases |fmt| - p
    {
      if fmt[p] != '%' {
        text := text + [fmt[p]];
        p := p + 1;
        continue;
      }
      var d := Parse(fmt, p, args, k);
      if d.None? {
        return None;
      }
      var c := At(fmt, d.value.at);
      var e := Emit(c, d.value.flags, d.value.width, d.value.precision, args, d.value.next, |text|);
      if e.None? {
        return None;
      }
      text, stored, k := text + e.value.out, stored + e.value.stored, e.value.next;
      p := if c == 0 as char then d.value.at else d.value.at + 1;
    }
    return Some(Printed(text, stored));
  }

  // ---- what vsprintf promises ----

  /** The text only grows and the stores only accumulate; every %n
      count is at most the length of the final text. */
  lemma {:induction false} FormatExtends(fmt: seq<char>, p: int, args: seq<Arg>, k: nat, acc: Printed, fix: bool)
    requires 0 <= p <= |fmt|
    requires forall i :: 0 <= i < |acc.stored| ==> acc.stored[i].1 <= |acc.text|
    ensures var r := FormatFrom(fmt, p, args, k, acc, fix);
      r.Some? ==> acc.text <= r.value.text && acc.stored <= r.value.stored &&
                  forall i :: 0 <= i < |r.value.stored| ==> r.value.stored[i].1 <= |r.value.text|
    decreases |fmt| - p
  {
    var c := At(fmt, p);
    if c == 0 as char {
    } else if c != '%' {
      FormatExtends(fmt, p + 1, args, k, Printed(acc.text + [c], acc.stored), fix);
    } else {
      match ParseDirective(fmt, p, args, k, fix)
      case None =>
      case Some(d) =>
        match Convert(At(fmt, d.at), d.flags, d.width, d.precision, args, d.next, |acc.text|)
        case None =>
        case Some(e) =>
          var q := if At(fmt, d.at) == 0 as char then d.at else d.at + 1;
          var acc' := Printed(acc.text + e.out, acc.stored + e.stored);
          assert forall i :: 0 <= i < |acc'.stored| ==> acc'.stored[i].1 <= |acc'.text|;
          FormatExtends(fmt, q, args, e.next, acc', fix);
    }
  }

  /** A run with neither '%' nor NUL is copied as it stands. */
  lemma {:induction false} LiteralRun(fmt: seq<char>, p: int, q: int, args: seq<Arg>, k: nat, acc: Printed, fix: bool)
    requires 0 <= p <= q <= |fmt| && '%' !in fmt[p..q] && 0 as char !in fmt[p..q]
    ensures FormatFrom(fmt, p, args, k, acc, fix) == FormatFrom(fmt, q, args, k, Printed(acc.text + fmt[p..q], acc.stored), fix)
    decreases q - p
  {
    if p < q {
      assert fmt[p..q] == [fmt[p]] + fmt[p + 1..q];
      assert fmt[p] in fmt[p..q];
      assert acc.text + [fmt[p]] + fmt[p + 1..q] == acc.text + fmt[p..q];
      LiteralRun(fmt, p + 1, q, args, k, Printed(acc.text + [fmt[p]], acc.stored), fix);
    } else {
      assert acc.text + fmt[p..q] == acc.text;
    }
  }

  /** A format without '%' or NUL is its own output, and reads no
      argument. */
  lemma LiteralCopied(fmt: seq<char>, args: seq<Arg>)
    requires '%' !in fmt && 0 as char !in fmt
    ensures Format(fmt, args) == Some(Printed(fmt, []))
  {
    assert fmt[0..|fmt|] == fmt && [] + fmt == fmt;
    LiteralRun(fmt, 0, |fmt|, args, 0, Printed([], []), true);
  }

  /** A conversion character right after its '%': no flags, width or
      precision are parsed and no argument is read for them. */
  lemma PlainDirective(fmt: seq<char>, p: int, args: seq<Arg>, k: nat, fix: bool)
    requires 0 <= p < |fmt| && fmt[p] == '%'
    requires var c := At(fmt, p + 1); !IsFlag(c) && !IsDigit(c) && c != '*' && c != '.' && !IsQualifier(c)
    ensures ParseDirective(fmt, p, args, k, fix) == Some(Directive(NoFlags, -1, -1, p + 1, k))
  {
    assert FlagsFrom(fmt, p + 1, NoFlags) == (NoFlags, p + 1);
    assert WidthSpec(fmt, p + 1, args, k, NoFlags, fix) == Some(Parsed(NoFlags, -1, p + 1, k));
    assert PrecisionSpec(fmt, p + 1, args, k, NoFlags, fix) == Some(Parsed(NoFlags, -1, p + 1, k));
  }

  /** One such conversion: its output is appended and the format goes
      on after it, or stops at the NUL. */
  lemma PlainStep(fmt: seq<char>, p: int, args: seq<Arg>, k: nat, acc: Printed, fix: bool)
    requires 0 <= p < |fmt| && fmt[p] == '%'
    requires var c := At(fmt, p + 1); !IsFlag(c) && !IsDigit(c) && c != '*' && c != '.' && !IsQualifier(c)
    ensures var c := At(fmt, p + 1);
      var e := Convert(c, NoFlags, -1, -1, args, k, |acc.text|);
      FormatFrom(fmt, p, args, k, acc, fix) ==
        if e.None? then None
        else FormatFrom(fmt, if c == 0 as char then p + 1 else p + 2, args, e.value.next,
                        Printed(acc.text + e.value.out, acc.stored + e.value.stored), fix)
  {
    PlainDirective(fmt, p, args, k, fix);
  }

  /** The end of the format. */
  lemma FormatEnd(fmt: seq<char>, p: int, args: seq<Arg>, k: nat, acc: Printed, fix: bool)
    requires 0 <= p <= |fmt| && At(fmt, p) == 0 as char
    ensures FormatFrom(fmt, p, args, k, acc, fix) == Some(acc)
  {
  }

  /** A field no wider than its content is the content. */
  lemma FieldUnpadded(t: Flags, head: seq<char>, body: seq<char>, pad: int)
    requires pad <= 0
    ensures Field(t, head, body, pad) == head + body
  {
    assert Rep(' ', pad) == [] && Rep('0', pad) == [];
    assert head + body + [] == head + body && head + [] + body == head + body && [] + head + body == head + body;
  }

  /** A number no wider than its width prints as its sign, prefix and
      digits, unpadded. */
  lemma NumberUnpadded(num: int, base: int, size: int, precision: int, t: Flags)
    requires -0x8000_0000 <= num < 0x8000_0000 && 2 <= base <= 36
    requires size <= |Head(num, base, Adjust(t))| + |Body(Magnitude(num, Adjust(t)), base, precision, t.small)|
    ensures NumberSpec(num, base, size, precision, t) ==
            Some(Head(num, base, Adjust(t)) + Body(Magnitude(num, Adjust(t)), base, precision, t.small))
  {
    var head := Head(num, base, Adjust(t));
    var body := Body(Magnitude(num, Adjust(t)), base, precision, t.small);
    FieldUnpadded(Adjust(t), head, body, size - |head| - |body|);
  }

  /** %n after a literal stores the number of characters written so far. */
  lemma StoresCount(lit: seq<char>, a: int)
    requires '%' !in lit && 0 as char !in lit
    ensures Format(lit + ['%', 'n'], [Ref(a)]) == Some(Printed(lit, [(a, |lit|)]))
  {
    var fmt := lit + ['%', 'n'];
    assert fmt[0..|lit|] == lit && [] + lit == lit;
    LiteralRun(fmt, 0, |lit|, [Ref(a)], 0, Printed([], []), true);
    assert fmt[|lit|] == '%' && At(fmt, |lit| + 1) == 'n' && At(fmt, |lit| + 2) == 0 as char;
    PlainStep(fmt, |lit|, [Ref(a)], 0, Printed(lit, []), true);
    assert lit + [] == lit && [] + [(a, |lit|)] == [(a, |lit|)];
  }

  /** "%%" prints one '%'. */
  lemma PercentEscaped(args: seq<Arg>)
    ensures Format(['%', '%'], args) == Some(Printed(['%'], []))
  {
    PlainStep(['%', '%'], 0, args, 0, Printed([], []), true);
    assert [] + ([] + ['%']) == ['%'];
    var none: seq<(int, int)> := [];
    assert none + none == none;
  }

  /** A character that is no flag, width, precision, qualifier or
      conversion is printed after a '%', and no argument is read. */
  lemma UnknownConversion(c: char, args: seq<Arg>)
    requires !IsFlag(c) && !IsDigit(c) && c != '*' && c != '.' && !IsQualifier(c) && c != 0 as char
    requires c != 'c' && c != 's' && !IsNumeric(c) && c != 'n' && c != '%'
    ensures Format(['%', c], args) == Some(Printed(['%', c], []))
  {
    PlainStep(['%', c], 0, args, 0, Printed([], []), true);
    assert [] + (['%'] + [c]) == ['%', c];
    var none: seq<(int, int)> := [];
    assert none + none == none;
  }

  /** A lone '%' at the end of the format prints as '%'. */
  lemma TrailingPercent(args: seq<Arg>)
    ensures Format(['%'], args) == Some(Printed(['%'], []))
  {
    PlainStep(['%'], 0, args, 0, Printed([], []), true);
    assert [] + (['%'] + []) == ['%'];
    var none: seq<(int, int)> := [];
    assert none + none == none;
  }

  /** A numeric conversion alone in the format prints what number()
      gives for its argument. */
  lemma NumericText(c: char, w: Word)
    requires IsNumeric(c)
    ensures var (base, t, width) := NumericArgs(c, NoFlags, -1);
      Format(['%', c], [Num(w)]) == Some(Printed(NumberSpec(Signed(w), base, width, -1, t).value, []))
  {
    PlainStep(['%', c], 0, [Num(w)], 0, Printed([], []), true);
    var (base, t, width) := NumericArgs(c, NoFlags, -1);
    var s := NumberSpec(Signed(w), base, width, -1, t).value;
    assert [] + s == s;
    var none: seq<(int, int)> := [];
    assert none + none == none;
  }

  /** The reading of a sign and a run of decimal digits. */
  lemma SignedDigits(n: int, head: seq<char>, body: seq<char>)
    requires head == (if n < 0 then ['-'] else [])
    requires Value(body, 10) == (if n < 0 then -n else n) && |body| >= 1
    requires forall j :: 0 <= j < |body| ==> CharValue(body[j]) < 10
    requires (n != 0 ==> body[0] != '0') && (n == 0 ==> body == ['0'])
    ensures var s := head + body;
      |s| >= 1 && (n < 0 <==> s[0] == '-') &&
      var ds := if n < 0 then s[1..] else s;
      Value(ds, 10) == (if n < 0 then -n else n) && (n != 0 ==> ds[0] != '0') && (n == 0 ==> ds == ['0'])
  {
    var s := head + body;
    if n < 0 {
      assert s[1..] == body;
    } else {
      assert s == body;
      assert CharValue(body[0]) < 10;
    }
  }

  /** "%d" prints a '-' exactly for a negative number, then its
      magnitude in decimal with no leading zero. */
  lemma DecimalMeans(w: Word)
    ensures var n := Signed(w); var r := Format(['%', 'd'], [Num(w)]);
      r.Some? && r.value.stored == [] && |r.value.text| >= 1 &&
      (n < 0 <==> r.value.text[0] == '-') &&
      var ds := if n < 0 then r.value.text[1..] else r.value.text;
      Value(ds, 10) == (if n < 0 then -n else n) && (n != 0 ==> ds[0] != '0') && (n == 0 ==> ds == ['0'])
  {
    var n := Signed(w);
    var t := NoFlags.(sign := true);
    assert NumericArgs('d', NoFlags, -1) == (10, t, -1);
    NumericText('d', w);
    var u := Magnitude(n, t);
    var head := Head(n, 10, t);
    var body := Body(u, 10, -1, false);
    NumberUnpadded(n, 10, -1, -1, t);
    SignMeans(n, t);
    BodyValue(u, 10, -1, false);
    BodyShape(u, 10, -1, false);
    assert head == if n < 0 then ['-'] else [];
    SignedDigits(n, head, body);
  }

  /** "%u" prints the word itself in decimal. */
  lemma UnsignedMeans(w: Word)
    ensures var r := Format(['%', 'u'], [Num(w)]);
      r.Some? && r.value.stored == [] && Value(r.value.text, 10) == w
  {
    assert NumericArgs('u', NoFlags, -1) == (10, NoFlags, -1);
    NumericText('u', w);
    NumberUnpadded(Signed(w), 10, -1, -1, NoFlags);
    var body := Body(Magnitude(Signed(w), NoFlags), 10, -1, false);
    assert Head(Signed(w), 10, NoFlags) == [];
    assert [] + body == body;
    BodyValue(Magnitude(Signed(w), NoFlags), 10, -1, false);
  }

  // ---- the '*' that stays under fmt ----

  /** As written, a '*' field width is read from the arguments but fmt
      is not moved past it, so the '*' is then taken for the conversion
      character: "%*" is printed, the argument is used up, and the format
      goes on after the '*'. */
  lemma StarWidthAsWritten(fmt: seq<char>, p: int, args: seq<Arg>, k: nat, acc: Printed)
    requires 0 <= p < |fmt| && fmt[p] == '%'
    requires At(fmt, FlagsFrom(fmt, p + 1, NoFlags).1) == '*' && k < |args| && args[k].Num?
    ensures var q := FlagsFrom(fmt, p + 1, NoFlags).1;
      FormatFrom(fmt, p, args, k, acc, false) ==
      FormatFrom(fmt, q + 1, args, k + 1, Printed(acc.text + ['%', '*'], acc.stored), false)
  {
    var q := FlagsFrom(fmt, p + 1, NoFlags).1;
    var w := WidthSpec(fmt, q, args, k, FlagsFrom(fmt, p + 1, NoFlags).0, false).value;
    assert w.end == q && w.next == k + 1;
    var d := ParseDirective(fmt, p, args, k, false).value;
    assert d.at == q && d.next == k + 1 && At(fmt, d.at) == '*';
    assert ['%'] + ['*'] == ['%', '*'];
    assert Convert('*', d.flags, d.width, d.precision, args, k + 1, |acc.text|) == Some(Emitted(['%', '*'], [], k + 1));
    var none: seq<(int, int)> := [];
    assert acc.stored + none == acc.stored;
  }

  /** The same for a '*' precision: "%" and "*" are printed. */
  lemma StarPrecisionAsWritten(fmt: seq<char>, p: int, args: seq<Arg>, k: nat, acc: Printed)
    requires 0 <= p < |fmt| && fmt[p] == '%'
    requires var q := FlagsFrom(fmt, p + 1, NoFlags).1;
      !IsDigit(At(fmt, q)) && At(fmt, q) == '.' && At(fmt, q + 1) == '*' && k < |args| && args[k].Num?
    ensures var q := FlagsFrom(fmt, p + 1, NoFlags).1;
      FormatFrom(fmt, p, args, k, acc, false) ==
      FormatFrom(fmt, q + 2, args, k + 1, Printed(acc.text + ['%', '*'], acc.stored), false)
  {
    var (t, q) := FlagsFrom(fmt, p + 1, NoFlags);
    assert WidthSpec(fmt, q, args, k, t, false) == Some(Parsed(t, -1, q, k));
    var pr := PrecisionSpec(fmt, q, args, k, t, false).value;
    assert pr.end == q + 1 && pr.next == k + 1;
    var d := ParseDirective(fmt, p, args, k, false).value;
    assert d.at == q + 1 && d.next == k + 1 && At(fmt, d.at) == '*';
    assert ['%'] + ['*'] == ['%', '*'];
    assert Convert('*', d.flags, d.width, d.precision, args, k + 1, |acc.text|) == Some(Emitted(['%', '*'], [], k + 1));
    var none: seq<(int, int)> := [];
    assert acc.stored + none == acc.stored;
  }

  /** With fmt stepped past the '*', the width is the argument (its
      magnitude with LEFT when negative) and the conversion character is
      looked for after the '*'. */
  lemma StarWidthFixed(fmt: seq<char>, p: int, args: seq<Arg>, k: nat)
    requires 0 <= p < |fmt| && fmt[p] == '%'
    requires At(fmt, FlagsFrom(fmt, p + 1, NoFlags).1) == '*' && k < |args| && args[k].Num?
    requires At(fmt, FlagsFrom(fmt, p + 1, NoFlags).1 + 1) != '.'
    ensures var t := FlagsFrom(fmt, p + 1, NoFlags).0; var q := FlagsFrom(fmt, p + 1, NoFlags).1;
      var w := Signed(args[k].w);
      var d := ParseDirective(fmt, p, args, k, true);
      d.Some? && d.value.at > q && d.value.width == (if w < 0 then Neg32(w) else w) &&
      (d.value.flags.left <==> t.left || w < 0) && d.value.next >= k + 1
  {
    var t := FlagsFrom(fmt, p + 1, NoFlags).0;
    var q := FlagsFrom(fmt, p + 1, NoFlags).1;
    var ws := WidthSpec(fmt, q, args, k, t, true).value;
    assert ws.end == q + 1 && ws.next == k + 1;
    assert ws.flags.left <==> t.left || Signed(args[k].w) < 0;
    var pr := PrecisionSpec(fmt, ws.end, args, ws.next, ws.flags, true).value;
    var d := ParseDirective(fmt, p, args, k, true).value;
    assert d.at >= pr.end >= ws.end && d.width == ws.value && d.flags == ws.flags;
  }

  /** With fmt stepped past a '*' precision, the precision is the
      argument (0 when negative), the argument is used up and the
      conversion character is looked for after the '*'. */
  lemma StarPrecisionFixed(fmt: seq<char>, p: int, args: seq<Arg>, k: nat)
    requires 0 <= p < |fmt| && fmt[p] == '%'
    requires var q := FlagsFrom(fmt, p + 1, NoFlags).1;
      !IsDigit(At(fmt, q)) && At(fmt, q) == '.' && At(fmt, q + 1) == '*' && k < |args| && args[k].Num?
    ensures var q := FlagsFrom(fmt, p + 1, NoFlags).1;
      var v := Signed(args[k].w);
      var d := ParseDirective(fmt, p, args, k, true);
      d.Some? && d.value.at > q + 1 && d.value.precision == (if v < 0 then 0 else v) && d.value.width == -1 &&
      d.value.next == k + 1
  {
    var (t, q) := FlagsFrom(fmt, p + 1, NoFlags);
    assert WidthSpec(fmt, q, args, k, t, true) == Some(Parsed(t, -1, q, k));
    var pr := PrecisionSpec(fmt, q, args, k, t, true).value;
    assert pr.end == q + 2 && pr.next == k + 1;
  }

  /** "%*d" with 5 and 42: as written it prints "%*d" and leaves 42
      unread. */
  lemma StarExampleAsWritten()
    ensures FormatAsWritten(['%', '*', 'd'], [Num(5), Num(42)]) == Some(Printed(['%', '*', 'd'], []))
  {
    var fmt := ['%', '*', 'd'];
    var args := [Num(5), Num(42)];
    var none: seq<(int, int)> := [];
    assert FlagsFrom(fmt, 1, NoFlags) == (NoFlags, 1);
    StarWidthAsWritten(fmt, 0, args, 0, Printed([], none));
    assert fmt[2..3] == ['d'];
    LiteralRun(fmt, 2, 3, args, 1, Printed([] + ['%', '*'], none), false);
    assert [] + ['%', '*'] + ['d'] == fmt;
  }

  /** Stepping past the '*', "%*d" with 5 and 42 prints 42 five wide. */
  lemma StarExampleFixed()
    ensures Format(['%', '*', 'd'], [Num(5), Num(42)]) == Some(Printed([' ', ' ', ' ', '4', '2'], []))
  {
    var fmt := ['%', '*', 'd'];
    var args := [Num(5), Num(42)];
    var t := NoFlags.(sign := true);
    assert FlagsFrom(fmt, 1, NoFlags) == (NoFlags, 1);
    assert WidthSpec(fmt, 1, args, 0, NoFlags, true) == Some(Parsed(NoFlags, 5, 2, 1));
    assert ParseDirective(fmt, 0, args, 0, true) == Some(Directive(NoFlags, 5, -1, 2, 1));
    FortyTwo();
    assert Convert('d', NoFlags, 5, -1, args, 1, 0) == Some(Emitted([' ', ' ', ' ', '4', '2'], [], 2));
    var none: seq<(int, int)> := [];
    assert [] + [' ', ' ', ' ', '4', '2'] == [' ', ' ', ' ', '4', '2'] && none + none == none;
  }

  /** number(42, 10, 5, -1, SIGN). */
  lemma FortyTwo()
    ensures NumberSpec(42, 10, 5, -1, NoFlags.(sign := true)) == Some([' ', ' ', ' ', '4', '2'])
  {
    var t := NoFlags.(sign := true);
    assert Digits(4, 10, false) == ['4'];
    assert Digits(42, 10, false) == ['4', '2'];
    assert Body(42, 10, -1, false) == ['4', '2'];
    assert Head(42, 10, t) == [];
    assert Field(t, [], ['4', '2'], 3) == [' ', ' ', ' ', '4', '2'];
  }
}
