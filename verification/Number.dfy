/** The integer formatter `number` and the integer reader `skip_atoi` of util.c. */
module Number {
  import opened Devices

  /** The seven flag bits: ZEROPAD, SIGN, PLUS, SPACE, LEFT, SPECIAL, SMALL. */
  datatype Flags = Flags(zeropad: bool, sign: bool, plus: bool, space: bool, left: bool, special: bool, small: bool)

  const PLAIN := Flags(false, false, false, false, false, false, false)

  // ------------------------------------------------------------------ positional notation

  lemma Smaller(m: nat, base: nat)
    requires 2 <= base <= m
    ensures 0 <= m / base < m && 0 <= m % base < base
  {
    Halves(m, base);
  }

  /** The digits of `m`, the most significant first; zero has one digit. */
  function Digits(m: nat, base: nat): (ds: seq<nat>)
    requires base >= 2
    ensures ds != [] && forall i | 0 <= i < |ds| :: ds[i] < base
  {
    if m < base then [m] else Smaller(m, base); Digits(m / base, base) + [m % base]
  }

  ghost function Value(ds: seq<int>, base: nat): int {
    if ds == [] then 0 else Value(ds[..|ds|-1], base) * base + ds[|ds|-1]
  }

  lemma ValueSnoc(ds: seq<int>, d: int, base: nat)
    ensures Value(ds + [d], base) == Value(ds, base) * base + d
  {
    assert (ds + [d])[..|ds|] == ds;
  }

  lemma {:induction false} DigitsValue(m: nat, base: nat)
    requires base >= 2
    ensures Value(Digits(m, base), base) == m
    ensures m > 0 ==> Digits(m, base)[0] != 0
  {
    if m < base {
      ValueSnoc([], m, base);
      assert [] + [m] == Digits(m, base);
    } else {
      Halves(m, base);
      MulLe(1, m / base, 1, 1) by { Quotient(m, base); }
      DigitsValue(m / base, base);
      ValueSnoc(Digits(m / base, base), m % base, base);
    }
  }

  lemma Quotient(m: nat, base: nat)
    requires 2 <= base <= m
    ensures m / base >= 1
  {
  }

  lemma Halves(m: nat, base: nat)
    requires base >= 2
    ensures m == (m / base) * base + m % base && m / base <= m / 2
    ensures m > 0 ==> m / base < m
  {
    if m / base > m / 2 {
      assert (m / base) * base >= (m / 2 + 1) * 2 by { MulLe(m / 2 + 1, m / base, 2, base); }
    }
  }

  lemma MulLe(a: nat, b: nat, c: nat, d: nat)
    requires a <= b && c <= d
    ensures a * c <= b * d
  {
    assert a * c <= b * c <= b * d;
  }

  /** At most one digit per bit. */
  lemma {:induction false} DigitsShort(m: nat, base: nat, bits: nat, bound: nat)
    requires base >= 2 && 1 <= bits && bound == Pow2(bits) && m < bound
    ensures |Digits(m, base)| <= bits
  {
    if m >= base {
      Halves(m, base);
      assert bits > 1;
      DigitsShort(m / base, base, bits - 1, Pow2(bits - 1));
    }
  }

  ghost function Pow2(n: nat): nat { if n == 0 then 1 else 2 * Pow2(n - 1) }

  /** The two digit tables: capitals, or small letters if so asked. */
  function DigitChar(d: nat, small: bool): char
    requires d < 36
  {
    if d < 10 then ('0' as int + d) as char
    else ((if small then 'a' as int else 'A' as int) + d - 10) as char
  }

  lemma DigitTable(d: nat)
    requires d < 36
    ensures DigitChar(d, false) == "0123456789ABCDEFGHIJKLMNOPQRSTUVWXYZ"[d]
    ensures DigitChar(d, true) == "0123456789abcdefghijklmnopqrstuvwxyz"[d]
  {
  }

  function DigitOf(c: char): int {
    if '0' <= c <= '9' then c as int - '0' as int
    else if 'a' <= c <= 'z' then c as int - 'a' as int + 10
    else c as int - 'A' as int + 10
  }

  function Text(ds: seq<nat>, small: bool): (r: string)
    requires forall i | 0 <= i < |ds| :: ds[i] < 36
    ensures |r| == |ds| && forall i | 0 <= i < |ds| :: r[i] == DigitChar(ds[i], small)
  {
    seq(|ds|, i requires 0 <= i < |ds| => DigitChar(ds[i], small))
  }

  // ------------------------------------------------------------------ the layout of a formatted number

  /** A run of one character; none when the count is negative. */
  function Run(c: char, n: int): (r: string)
    ensures |r| == (if n > 0 then n else 0) && forall i | 0 <= i < |r| :: r[i] == c
  {
    seq(if n > 0 then n else 0, _ => c)
  }

  /** What the machine sees of a 32-bit integer: its size when it is printed with a sign, else its bits as unsigned. */
  function Magnitude(num: int, signed: bool): (m: nat)
    requires -0x8000_0000 <= num < 0x8000_0000
    ensures m < U32
  {
    if num >= 0 then num else if signed then -num else num + U32
  }

  function SignOf(num: int, flags: Flags): string {
    if flags.sign && num < 0 then "-" else if flags.plus then "+" else if flags.space then " " else ""
  }

  function Prefix(base: nat, flags: Flags): string {
    if !flags.special then ""
    else if base == 8 then "0"
    else if base == 16 then ['0', DigitChar(33, flags.small)]
    else ""
  }

  function Body(num: int, base: nat, flags: Flags): string
    requires -0x8000_0000 <= num < 0x8000_0000 && 2 <= base <= 36
  {
    Text(Digits(Magnitude(num, flags.sign), base), flags.small)
  }

  function Max(a: int, b: int): int { if a > b then a else b }

  function Head(num: int, base: nat, flags: Flags): string { SignOf(num, flags) + Prefix(base, flags) }

  /** Width is made up with spaces on the left, with zeros after the sign and prefix, or with spaces on the right;
      precision with zeros before the digits. */
  function Arrange(left: bool, zero: bool, slack: int, head: string, lead: int, body: string): string {
    (if left || zero then "" else Run(' ', slack)) + head + (if zero && !left then Run('0', slack) else "")
    + Run('0', lead) + body + (if left then Run(' ', slack) else "")
  }

  function Layout(num: int, base: nat, size: int, precision: int, flags: Flags): string
    requires -0x8000_0000 <= num < 0x8000_0000 && 2 <= base <= 36
  {
    var body, head := Body(num, base, flags), Head(num, base, flags);
    Arrange(flags.left, flags.zeropad, size - |head| - Max(precision, |body|), head, Max(precision, |body|) - |body|,
        body)
  }

  /** What a formatted number looks like. First comes the sign: "-" for a negative number printed with a sign, else "+"
      or a space if so asked. Then comes the prefix: "0" in base 8 and "0x" or "0X" in base 16, if so asked. Then come
      the digits, made up to the precision with zeros. What the width leaves is made up on the right with spaces for
      LEFT, else before the digits with zeros for ZEROPAD, else on the left with spaces. */
  ghost function Spelled(sign: string, prefix: string, digits: string, width: int, precision: int, left: bool,
                         zero: bool): string {
    var zeros := Run('0', precision - |digits|);
    var slack := width - |sign| - |prefix| - |zeros| - |digits|;
    if left then sign + prefix + zeros + digits + Run(' ', slack)
    else if zero then sign + prefix + Run('0', slack) + zeros + digits
    else Run(' ', slack) + sign + prefix + zeros + digits
  }

  ghost predicate Formatted(num: int, base: nat, width: int, precision: int, flags: Flags, text: string)
    requires -0x8000_0000 <= num < 0x8000_0000 && 2 <= base <= 36
  {
    var sign := if flags.sign && num < 0 then "-" else if flags.plus then "+" else if flags.space then " " else "";
    var prefix := if flags.special && base == 8 then "0"
                  else if flags.special && base == 16 then if flags.small then "0x" else "0X"
                  else "";
    text == Spelled(sign, prefix, Body(num, base, flags), width, precision, flags.left, flags.zeropad)
  }

  lemma LayoutMeans(num: int, base: nat, width: int, precision: int, flags: Flags)
    requires -0x8000_0000 <= num < 0x8000_0000 && 2 <= base <= 36
    ensures Formatted(num, base, width, precision, flags, Layout(num, base, width, precision, flags))
  {
    HeadMeans(num, base, flags);
    ArrangeIsSpelled(SignOf(num, flags), Prefix(base, flags), Body(num, base, flags), width, precision, flags.left,
        flags.zeropad);
  }

  lemma HeadMeans(num: int, base: nat, flags: Flags)
    ensures SignOf(num, flags)
            == if flags.sign && num < 0 then "-" else if flags.plus then "+" else if flags.space then " " else ""
    ensures Prefix(base, flags)
            == if flags.special && base == 8 then "0"
               else if flags.special && base == 16 then if flags.small then "0x" else "0X"
               else ""
  {
    DigitTable(33);
  }

  lemma ArrangeIsSpelled(sign: string, prefix: string, digits: string, width: int, precision: int, left: bool,
                         zero: bool)
    ensures var lead := Max(precision, |digits|) - |digits|;
            Arrange(left, zero, width - |sign + prefix| - Max(precision, |digits|), sign + prefix, lead, digits)
            == Spelled(sign, prefix, digits, width, precision, left, zero)
  {
    var lead := Max(precision, |digits|) - |digits|;
    var slack := width - |sign + prefix| - Max(precision, |digits|);
    assert Run('0', lead) == Run('0', precision - |digits|);
    ArrangeMeans(left, zero, slack, sign, prefix, lead, digits);
  }

  lemma ArrangeMeans(left: bool, zero: bool, slack: int, sign: string, prefix: string, lead: int, body: string)
    ensures Arrange(left, zero, slack, sign + prefix, lead, body)
            == if left then sign + prefix + Run('0', lead) + body + Run(' ', slack)
               else if zero then sign + prefix + Run('0', slack) + Run('0', lead) + body
               else Run(' ', slack) + sign + prefix + Run('0', lead) + body
  {
    var head, zeros := sign + prefix, Run('0', lead);
    assert "" + head == head && head + "" == head;
    if left {
    } else if zero {
      assert head + Run('0', slack) + zeros + body + "" == head + Run('0', slack) + zeros + body;
    } else {
      assert Run(' ', slack) + head == Run(' ', slack) + sign + prefix;
      assert Run(' ', slack) + head + "" == Run(' ', slack) + head;
      assert Run(' ', slack) + head + zeros + body + "" == Run(' ', slack) + head + zeros + body;
    }
  }

  /** 255 as "%04x", 42 as "%6d", and -5 as "%-4d". */
  lemma LayoutExamples()
    ensures Layout(255, 16, 4, -1, PLAIN.(zeropad := true, small := true)) == "00ff"
    ensures Layout(42, 10, 6, -1, PLAIN.(sign := true)) == "    42"
    ensures Layout(-5, 10, 4, -1, PLAIN.(sign := true, left := true)) == "-5  "
  {
    assert Digits(15, 16) == [15] && Digits(255, 16) == Digits(15, 16) + [15];
    assert Digits(4, 10) == [4] && Digits(42, 10) == Digits(4, 10) + [2];
    assert Digits(5, 10) == [5];
    assert Body(255, 16, PLAIN.(zeropad := true, small := true)) == "ff";
    assert Body(42, 10, PLAIN.(sign := true)) == "42";
    assert Body(-5, 10, PLAIN.(sign := true, left := true)) == "5";
  }

  lemma LayoutLength(num: int, base: nat, size: int, precision: int, flags: Flags)
    requires -0x8000_0000 <= num < 0x8000_0000 && 2 <= base <= 36
    ensures var body := Body(num, base, flags);
            |Layout(num, base, size, precision, flags)| == Max(size, |Head(num, base, flags)| + Max(precision, |body|))
    ensures 1 <= |Body(num, base, flags)| <= 32
  {
    assert Pow2(32) == U32 by { Pow2At32(); }
    DigitsShort(Magnitude(num, flags.sign), base, 32, U32);
  }

  lemma Pow2At32()
    ensures Pow2(32) == U32
  {
    assert Pow2(8) == 256 && Pow2(16) == 65536 && Pow2(24) == 0x100_0000;
  }

  ghost function ReadBack(text: string): seq<int> {
    seq(|text|, i requires 0 <= i < |text| => DigitOf(text[i]))
  }

  lemma ReadBackText(ds: seq<nat>, small: bool)
    requires forall i | 0 <= i < |ds| :: ds[i] < 36
    ensures ReadBack(Text(ds, small)) == ds
  {
  }

  /** The digits printed, read back, stand for the number's magnitude, and the sign tells its sign. */
  lemma BodyDecodes(num: int, base: nat, flags: Flags)
    requires -0x8000_0000 <= num < 0x8000_0000 && 2 <= base <= 36
    ensures var ds := ReadBack(Body(num, base, flags));
            (forall i | 0 <= i < |ds| :: 0 <= ds[i] < base) && Value(ds, base) == Magnitude(num, flags.sign)
    ensures flags.sign ==>
            if SignOf(num, flags) == "-" then num + Magnitude(num, flags.sign) == 0
            else num == Magnitude(num, flags.sign)
  {
    DigitsValue(Magnitude(num, flags.sign), base);
    ReadBackText(Digits(Magnitude(num, flags.sign), base), flags.small);
  }

  // ------------------------------------------------------------------ the formatter

  /** `while (size-- > 0) *str++ = c;` */
  method Fill(str: string, c: char, size: int) returns (out: string, left: int)
    ensures out == str + Run(c, size) && left < 0
    ensures size <= 0 ==> left == size - 1
  {
    out, left := str, size;
    while left > 0
      invariant left <= size && (size <= 0 ==> left == size)
      invariant out == str + Run(c, if size <= 0 then 0 else size - (if left > 0 then left else 0))
      decreases left
    {
      left := left - 1;
      out := out + [c];
    }
    left := left - 1;
  }

  /** One division peels off the last digit. */
  lemma DigitsStep(n: nat, base: nat)
    requires base >= 2 && n > 0
    ensures 0 <= n % base < base && 0 <= n / base < n
    ensures Digits(n, base) == if n / base == 0 then [n % base] else Digits(n / base, base) + [n % base]
  {
    Halves(n, base);
    if n >= base { Quotient(n, base); } else { Small(n, base); }
  }

  /** The digits still to come. */
  ghost function Rest(n: nat, base: nat): seq<nat>
    requires base >= 2
  {
    if n == 0 then [] else Digits(n, base)
  }

  /** `do_div`: the quotient and the remainder, which is the next digit from the right. */
  method DoDiv(n: nat, base: nat, ghost tail: seq<nat>) returns (quo: nat, rem: nat)
    requires base >= 2 && n > 0
    ensures rem < base && quo < n
    ensures Rest(n, base) + tail == Rest(quo, base) + ([rem] + tail) && |Rest(n, base)| >= 1
  {
    DigitsStep(n, base);
    quo, rem := n / base, n % base;
  }

  lemma Small(n: nat, base: nat)
    requires n < base
    ensures n / base == 0 && n % base == n
  {
  }

  ghost predicate BackAt(s: seq<char>, tail: seq<nat>, small: bool, k: int) {
    0 <= k < |tail| <= |s| ==> tail[k] < 36 && s[|tail| - 1 - k] == DigitChar(tail[k], small)
  }

  /** The first |tail| characters of `s` are the digits `tail`, the least significant first. */
  ghost predicate Backwards(s: seq<char>, tail: seq<nat>, small: bool) {
    |tail| <= |s| && forall k :: BackAt(s, tail, small, k)
  }

  lemma BackwardsPush(s: seq<char>, tail: seq<nat>, rem: nat, small: bool)
    requires Backwards(s, tail, small) && |tail| < |s| && rem < 36
    ensures Backwards(s[|tail| := DigitChar(rem, small)], [rem] + tail, small)
  {
    var s', tail' := s[|tail| := DigitChar(rem, small)], [rem] + tail;
    forall k ensures BackAt(s', tail', small, k) {
      assert BackAt(s, tail, small, k - 1);
    }
  }

  /** The first |text| characters of `s` are `text` from right to left. */
  ghost predicate Mirrors(s: seq<char>, text: string) {
    |text| <= |s| && forall k | 0 <= k < |text| :: s[k] == text[|text| - 1 - k]
  }

  lemma BackwardsText(s: seq<char>, ds: seq<nat>, small: bool)
    requires Backwards(s, ds, small) && forall i | 0 <= i < |ds| :: ds[i] < 36
    ensures Mirrors(s, Text(ds, small))
  {
    forall k | 0 <= k < |ds| ensures s[k] == Text(ds, small)[|ds| - 1 - k] {
      assert BackAt(s, ds, small, |ds| - 1 - k);
    }
  }

  /** The loop that fills `tmp` with digits, the least significant first, and its count `i`. */
  method FillTmp(tmp: array<char>, m: nat, base: nat, small: bool) returns (i: nat)
    requires tmp.Length == 36 && m < U32 && 2 <= base <= 36
    modifies tmp
    ensures Backwards(tmp[..], Digits(m, base), small) && i == |Digits(m, base)| <= 32
  {
    assert |Digits(m, base)| <= 32 by {
      Pow2At32();
      DigitsShort(m, base, 32, U32);
    }
    if m == 0 {
      tmp[0] := '0';
      return 1;
    }
    i := 0;
    var n: nat := m;
    ghost var tail: seq<nat> := [];
    while n != 0
      invariant |tail| == i <= 32 && Digits(m, base) == Rest(n, base) + tail
      invariant Backwards(tmp[..], tail, small)
      decreases n
    {
      var rem;
      n, rem := DoDiv(n, base, tail);
      BackwardsPush(tmp[..], tail, rem, small);
      ghost var s := tmp[..][i := DigitChar(rem, small)];
      tmp[i] := DigitChar(rem, small);
      assert tmp[..] == s;
      tail := [rem] + tail;
      i := i + 1;
    }
    assert Digits(m, base) == tail;
  }

  /** `number`: refuses a base outside 2..36, and otherwise writes exactly the layout. */
  method Format(num: int, base: int, width: int, precision: int, flags: Flags) returns (ok: bool, str: string)
    requires -0x8000_0000 <= num < 0x8000_0000
    ensures ok <==> 2 <= base <= 36
    ensures ok ==> str == Layout(num, base, width, precision, flags)
    ensures ok ==> Formatted(num, base, width, precision, flags, str)
  {
    if 2 <= base <= 36 { LayoutMeans(num, base, width, precision, flags); }
    ok, str := false, "";
    var type_ := flags;
    if type_.left { type_ := type_.(zeropad := false); }
    if base < 2 || base > 36 { return; }
    ok := true;
    str := Convert(num, base, width, precision, type_);
    LeftWins(num, base, width, precision, flags);
  }

  /** With LEFT, ZEROPAD makes no difference. */
  lemma LeftWins(num: int, base: nat, width: int, precision: int, flags: Flags)
    requires -0x8000_0000 <= num < 0x8000_0000 && 2 <= base <= 36
    ensures flags.left ==>
            Layout(num, base, width, precision, flags.(zeropad := false)) == Layout(num, base, width, precision, flags)
  {
    var f := flags.(zeropad := false);
    assert Body(num, base, f) == Body(num, base, flags) && Head(num, base, f) == Head(num, base, flags);
  }

  /** The rest of `number`, with a good base and ZEROPAD cleared for left-justified output. */
  method Convert(num: int, base: nat, width: int, precision: int, flags: Flags) returns (str: string)
    requires -0x8000_0000 <= num < 0x8000_0000 && 2 <= base <= 36 && !(flags.left && flags.zeropad)
    ensures str == Layout(num, base, width, precision, flags)
  {
    var size := Room(num, base, width, flags);
    var tmp := new char[36];
    var i := FillBody(tmp, num, base, flags);
    var prec := Max(precision, i);
    str := Emit(flags.left, flags.zeropad, size - prec, Head(num, base, flags), prec, tmp, i, Body(num, base, flags));
  }

  /** `tmp` then holds the body from right to left. */
  method FillBody(tmp: array<char>, num: int, base: nat, flags: Flags) returns (i: nat)
    requires tmp.Length == 36 && -0x8000_0000 <= num < 0x8000_0000 && 2 <= base <= 36
    modifies tmp
    ensures i == |Body(num, base, flags)| <= 32 && Mirrors(tmp[..], Body(num, base, flags))
  {
    var m := Magnitude(num, flags.sign);
    i := FillTmp(tmp, m, base, flags.small);
    BackwardsText(tmp[..], Digits(m, base), flags.small);
  }

  /** The width left after the sign and the prefix. */
  method Room(num: int, base: nat, width: int, flags: Flags) returns (size: int)
    ensures size == width - |Head(num, base, flags)|
  {
    size := width;
    if SignOf(num, flags) != "" { size := size - 1; }
    if flags.special {
      if base == 16 { size := size - 2; } else if base == 8 { size := size - 1; }
    }
  }

  /** The output loops. */
  method Emit(left: bool, zero: bool, slack: int, head: string, precision: int, tmp: array<char>, i: nat,
              ghost body: string)
    returns (str: string)
    requires i == |body| && Mirrors(tmp[..], body)
    requires !(left && zero)
    ensures str == Arrange(left, zero, slack, head, precision - i, body)
  {
    var c := if zero then '0' else ' ';
    var size := slack;
    str := "";
    if !zero && !left {
      str, size := Fill(str, ' ', size);
    }
    str := str + head;
    if !left {
      str, size := Fill(str, c, size);
    }
    var unused;
    str, unused := Fill(str, '0', precision - i);
    str := Unwind(str, tmp, i, body);
    str, unused := Fill(str, ' ', size);
  }

  /** `while (i-- > 0) *str++ = tmp[i];` */
  method Unwind(str: string, tmp: array<char>, n: nat, ghost text: string) returns (out: string)
    requires n == |text| && Mirrors(tmp[..], text)
    ensures out == str + text
  {
    out := str;
    var i := n;
    while i > 0
      invariant 0 <= i <= n && out == str + text[..n - i]
    {
      i := i - 1;
      assert tmp[..][i] == text[n - 1 - i];
      out := out + [tmp[i]];
    }
    assert text[..n] == text;
  }

  // ------------------------------------------------------------------ the reader

  function Wrap32(x: int): (r: int)
    ensures -0x8000_0000 <= r < 0x8000_0000 && (x - r) % U32 == 0
  {
    (x + 0x8000_0000) % U32 - 0x8000_0000
  }

  predicate IsDigit(c: char) { '0' <= c <= '9' }

  lemma WrapStep(v: int, d: int)
    ensures Wrap32(Wrap32(v) * 10 + d) == Wrap32(v * 10 + d)
  {
    var k := (v + 0x8000_0000) / U32;
    assert Wrap32(v) == v - U32 * k;
    var a, m := v * 10 + d + 0x8000_0000, 10 * k;
    assert (a - U32 * m) % U32 == a % U32;
  }

  lemma ReadBackStep(s: string, pos: nat, end: nat)
    requires pos <= end < |s|
    ensures Value(ReadBack(s[pos..end+1]), 10) == Value(ReadBack(s[pos..end]), 10) * 10 + DigitOf(s[end])
  {
    assert ReadBack(s[pos..end+1]) == ReadBack(s[pos..end]) + [DigitOf(s[end])];
    ValueSnoc(ReadBack(s[pos..end]), DigitOf(s[end]), 10);
  }

  /** skip_atoi from position `pos`: the value and the position after the digits. */
  method SkipAtoi(s: string, pos: nat) returns (i: int, end: nat)
    requires pos <= |s|
    ensures pos <= end <= |s| && (end < |s| ==> !IsDigit(s[end])) && forall k | pos <= k < end :: IsDigit(s[k])
    ensures i == Wrap32(Value(ReadBack(s[pos..end]), 10))
  {
    i, end := 0, pos;
    assert s[pos..pos] == [];
    while end < |s| && IsDigit(s[end])
      invariant pos <= end <= |s| && forall k | pos <= k < end :: IsDigit(s[k])
      invariant i == Wrap32(Value(ReadBack(s[pos..end]), 10))
    {
      ReadBackStep(s, pos, end);
      WrapStep(Value(ReadBack(s[pos..end]), 10), DigitOf(s[end]));
      i := Wrap32(i * 10 + s[end] as int - '0' as int);
      end := end + 1;
    }
  }

  lemma PlainLayout(num: int)
    requires 0 <= num < 0x8000_0000
    ensures var text := Body(num, 10, PLAIN);
            Layout(num, 10, -1, -1, PLAIN) == text && (forall k | 0 <= k < |text| :: IsDigit(text[k]))
              && Value(ReadBack(text), 10) == num
  {
    BodyDecodes(num, 10, PLAIN);
  }

  /** A reader of digits stops right behind them. */
  lemma StopsBehind(text: string, rest: string, end: nat)
    requires end <= |text + rest| && (forall k | 0 <= k < |text| :: IsDigit(text[k]))
    requires (rest == "" || !IsDigit(rest[0])) && (end < |text + rest| ==> !IsDigit((text + rest)[end]))
    requires forall k | 0 <= k < end :: IsDigit((text + rest)[k])
    ensures end == |text| && (text + rest)[0..end] == text
  {
    assert forall k | 0 <= k < |text| :: (text + rest)[k] == text[k];
    assert rest != "" ==> (text + rest)[|text|] == rest[0];
  }

  /** The plain text of a number. */
  method Plain(num: int) returns (text: string)
    requires 0 <= num < 0x8000_0000
    ensures (forall k | 0 <= k < |text| :: IsDigit(text[k])) && Value(ReadBack(text), 10) == num
  {
    PlainLayout(num);
    var ok;
    ok, text := Format(num, 10, -1, -1, PLAIN);
  }

  /** Reading back what the formatter wrote in base 10, plain and unsigned, gives the number again. */
  method RoundTrip(num: int, rest: string) returns (back: int)
    requires 0 <= num < 0x8000_0000 && (rest == "" || !IsDigit(rest[0]))
    ensures back == num
  {
    var text := Plain(num);
    var end;
    back, end := SkipAtoi(text + rest, 0);
    StopsBehind(text, rest, end);
  }
}
