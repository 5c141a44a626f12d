/** Number printing and bounded formatting (src/kernel/nonstd/libc.cc). */
module Printf {
  import opened Sequences

  const INT32: int := 0x8000_0000
  const INT64: int := 0x8000_0000_0000_0000
  const UINT32: int := 0x1_0000_0000
  const UINT64: int := 0x1_0000_0000_0000_0000

  // ----- Numerals -----

  predicate ValidRadix(radix: int) { radix == 2 || radix == 8 || radix == 10 || radix == 16 }

  function DigitChar(d: nat): char
    requires d < 16
  {
    ((d + if d >= 10 then 'a' as int - 10 else '0' as int) as char)
  }

  /** The value of a digit as a reader sees it. */
  function DigitValue(c: char): int {
    if '0' <= c <= '9' then c as int - '0' as int
    else if 'a' <= c <= 'f' then c as int - 'a' as int + 10
    else -1
  }

  function Quot(val: nat, radix: nat): (q: nat)
    requires ValidRadix(radix)
    ensures 2 * q <= val && (val < radix <==> q == 0)
  {
    val / radix
  }

  function Rem(val: nat, radix: nat): (r: nat)
    requires ValidRadix(radix)
    ensures r < radix
  {
    val % radix
  }

  lemma QuotRem(val: nat, radix: nat)
    requires ValidRadix(radix)
    ensures Quot(val, radix) * radix + Rem(val, radix) == val
  {
  }

  /** The value of a positional numeral. */
  function Value(text: string, radix: nat): int {
    if text == "" then 0
    else Value(text[..|text| - 1], radix) * radix + DigitValue(text[|text| - 1])
  }

  /** The numeral that is printed. */
  function Numeral(val: nat, radix: nat): (text: string)
    requires ValidRadix(radix)
    ensures text != ""
  {
    if val < radix then [DigitChar(val)] else Numeral(Quot(val, radix), radix) + [DigitChar(Rem(val, radix))]
  }

  /** Reading the numeral gives back the number, and it has no leading zero. */
  lemma {:induction false} NumeralRoundTrip(val: nat, radix: nat)
    requires ValidRadix(radix)
    ensures Value(Numeral(val, radix), radix) == val
    ensures forall i :: 0 <= i < |Numeral(val, radix)| ==> 0 <= DigitValue(Numeral(val, radix)[i]) < radix
    ensures Numeral(val, radix)[0] == '0' ==> val == 0 && Numeral(val, radix) == "0"
  {
    if val < radix {
      assert [DigitChar(val)][..0] == "";
    } else {
      NumeralRoundTrip(Quot(val, radix), radix);
      QuotRem(val, radix);
      var n := Numeral(Quot(val, radix), radix);
      assert (n + [DigitChar(Rem(val, radix))])[..|n|] == n;
    }
  }

  function Pow2(k: nat): nat { if k == 0 then 1 else 2 * Pow2(k - 1) }

  lemma {:induction false} Pow2Add(a: nat, b: nat)
    ensures Pow2(a + b) == Pow2(a) * Pow2(b)
  {
    if a == 0 {
    } else {
      Pow2Add(a - 1, b);
    }
  }

  lemma Pow2Of64()
    ensures Pow2(64) == UINT64
  {
    assert Pow2(4) == 16;
    Pow2Add(4, 4);
    Pow2Add(8, 8);
    Pow2Add(16, 16);
    Pow2Add(32, 32);
  }

  lemma {:induction false} NumeralLength(val: nat, radix: nat, k: nat)
    requires ValidRadix(radix) && k > 0 && val < Pow2(k)
    ensures |Numeral(val, radix)| <= k
  {
    if val < radix {
    } else {
      NumeralLength(Quot(val, radix), radix, k - 1);
    }
  }

  /** A 64-bit number takes at most 64 characters. */
  lemma NumeralFits(val: nat, radix: nat)
    requires ValidRadix(radix) && val < UINT64
    ensures |Numeral(val, radix)| <= 64
  {
    Pow2Of64();
    NumeralLength(val, radix, 64);
  }

  function SignedNumeral(val: int): string {
    if val < 0 then "-" + Numeral(-val, 10) else Numeral(val, 10)
  }

  function SignedValue(text: string): int {
    if text != "" && text[0] == '-' then -Value(text[1..], 10) else Value(text, 10)
  }

  lemma SignedRoundTrip(val: int)
    ensures SignedValue(SignedNumeral(val)) == val
    ensures -INT64 <= val < INT64 ==> |SignedNumeral(val)| <= 64
  {
    var n := if val < 0 then -val else val;
    NumeralRoundTrip(n, 10);
    assert ("-" + Numeral(n, 10))[1..] == Numeral(n, 10);
    assert DigitValue('-') == -1;
    if -INT64 <= val < INT64 { DecimalFits(n); }
  }

  /** Below 2^64 a decimal numeral is much shorter than a binary one. */
  lemma DecimalFits(val: nat)
    requires val < UINT64
    ensures |Numeral(val, 10)| < 64
  {
    if val >= 10 {
      Pow2Of64();
      assert Pow2(62) * 4 == Pow2(64) by { assert Pow2(64) == 2 * Pow2(63) && Pow2(63) == 2 * Pow2(62); }
      NumeralLength(val / 10, 10, 62);
    }
  }

  // ----- _utoa and _itoa -----

  /** The digits from the last to the first, as the first loop writes them. */
  ghost function Backwards(val: nat, radix: nat): string
    requires ValidRadix(radix)
  {
    if val == 0 then "" else [DigitChar(Rem(val, radix))] + Backwards(Quot(val, radix), radix)
  }

  ghost function Reversed(s: string): (r: string)
    ensures |r| == |s| && forall i :: 0 <= i < |s| ==> r[i] == s[|s| - 1 - i]
  {
    seq(|s|, i requires 0 <= i < |s| => s[|s| - 1 - i])
  }

  lemma {:induction false} BackwardsIsReversed(val: nat, radix: nat)
    requires ValidRadix(radix) && val > 0
    ensures Reversed(Backwards(val, radix)) == Numeral(val, radix)
  {
    var d := [DigitChar(Rem(val, radix))];
    if val < radix {
      assert Backwards(Quot(val, radix), radix) == "";
    } else {
      BackwardsIsReversed(Quot(val, radix), radix);
      assert Reversed(d + Backwards(Quot(val, radix), radix)) == Reversed(Backwards(Quot(val, radix), radix)) + d;
    }
  }

  /** The text `out` has been written at `at`. */
  ghost predicate Written(now: seq<char>, was: seq<char>, at: nat, out: string) {
    at + |out| <= |was| && now == was[..at] + out + was[at + |out|..]
  }

  lemma OneMoreWritten(now: seq<char>, was: seq<char>, at: nat, out: string, c: char)
    requires Written(now, was, at, out) && at + |out| < |was|
    ensures Written(now[at + |out| := c], was, at, out + [c])
  {
  }

  method Put(buf: array<char>, k: nat, c: char)
    requires k < buf.Length
    modifies buf
    ensures buf[..] == old(buf[..])[k := c]
  {
    buf[k] := c;
  }

  /** First loop: write the digits in the order in which they come up. */
  method WriteDigits(buf: array<char>, at: nat, val: nat, radix: nat) returns (i: nat)
    requires ValidRadix(radix) && at + |Backwards(val, radix)| <= buf.Length
    modifies buf
    ensures i == |Backwards(val, radix)| && Written(buf[..], old(buf[..]), at, Backwards(val, radix))
  {
    i := 0;
    var v := val;
    ghost var was, out := buf[..], "";
    while v > 0
      invariant i == |out| && Written(buf[..], was, at, out) && at + i + |Backwards(v, radix)| <= buf.Length
      invariant out + Backwards(v, radix) == Backwards(val, radix)
      decreases v
    {
      var digit := DigitChar(Rem(v, radix));
      OneMoreWritten(buf[..], was, at, out, digit);
      Assoc(out, [digit], Backwards(Quot(v, radix), radix));
      Put(buf, at + i, digit);
      i, out := i + 1, out + [digit];
      v := Quot(v, radix);
    }
  }

  /** The run of `n` characters at `at` is reversed in its middle, beyond the j-th pair. */
  ghost predicate MiddleReversed(now: seq<char>, was: seq<char>, at: nat, n: nat, j: int) {
    && |now| == |was| && at + n <= |was| && -1 <= j < n
    && forall y {:trigger now[y]} :: 0 <= y < |was| ==> now[y] == if at + j < y < at + n - 1 - j then was[2 * at + n - 1 - y] else was[y]
  }

  lemma NothingReversed(was: seq<char>, at: nat, n: nat)
    requires at + n <= |was|
    ensures MiddleReversed(was, was, at, n, n / 2 - 1)
  {
  }

  lemma OnePairMore(now: seq<char>, was: seq<char>, at: nat, n: nat, j: nat)
    requires MiddleReversed(now, was, at, n, j) && 2 * j < n - 1
    ensures MiddleReversed(now[at + j := now[at + n - 1 - j]][at + n - 1 - j := now[at + j]], was, at, n, j - 1)
  {
  }

  lemma AllReversed(now: seq<char>, was: seq<char>, at: nat, n: nat)
    requires MiddleReversed(now, was, at, n, -1)
    ensures now[at..at + n] == Reversed(was[at..at + n]) && now[..at] == was[..at]
  {
  }

  /** Second loop: reverse them in place, from the middle outwards. */
  method ReverseInPlace(buf: array<char>, at: nat, n: nat)
    requires at + n <= buf.Length
    modifies buf
    ensures buf[at..at + n] == Reversed(old(buf[at..at + n]))
    ensures buf[..at] == old(buf[..at])
  {
    ghost var was := buf[..];
    NothingReversed(was, at, n);
    var j := n / 2 - 1;
    while j >= 0
      invariant -1 <= j <= n / 2 - 1
      invariant MiddleReversed(buf[..], was, at, n, j)
    {
      OnePairMore(buf[..], was, at, n, j);
      buf[at + j], buf[at + n - 1 - j] := buf[at + n - 1 - j], buf[at + j];
      j := j - 1;
    }
    AllReversed(buf[..], was, at, n);
  }

  /** `_utoa`: writes the numeral; -1 if the radix is not supported, unless the value is zero. */
  method Utoa(buf: array<char>, at: nat, val: nat, radix: int) returns (len: int)
    requires at < buf.Length && val < UINT64
    requires ValidRadix(radix) ==> at + |Numeral(val, radix)| <= buf.Length
    modifies buf
    ensures buf[..at] == old(buf[..at])
    ensures ValidRadix(radix) ==> len == |Numeral(val, radix)| && buf[at..at + len] == Numeral(val, radix)
    ensures !ValidRadix(radix) && val == 0 ==> len == 1 && buf[at] == '0'
    ensures !ValidRadix(radix) && val != 0 ==> len == -1 && buf[..] == old(buf[..])
  {
    if val == 0 {
      buf[at] := '0';
      return 1;
    }
    if !ValidRadix(radix) {
      return -1;
    }
    BackwardsIsReversed(val, radix);
    len := WriteDigits(buf, at, val, radix);
    assert buf[at..at + len] == Backwards(val, radix) && buf[..at] == old(buf[..at]);
    ReverseInPlace(buf, at, len);
  }

  /** Negating the unsigned value gives the magnitude, also for the least 64-bit number. */
  lemma NegateUnsigned(val: int)
    requires -INT64 <= val < 0
    ensures (UINT64 - val % UINT64) % UINT64 == -val
  {
    assert val % UINT64 == val + UINT64;
  }

  /** `_itoa`: the negation is done in 64-bit unsigned arithmetic. */
  method Itoa(buf: array<char>, val: int) returns (len: int)
    requires -INT64 <= val < INT64 && buf.Length >= 64
    modifies buf
    ensures len == |SignedNumeral(val)| <= 64 && buf[..len] == SignedNumeral(val)
  {
    SignedRoundTrip(val);
    if val < 0 {
      buf[0] := '-';
      var u := (UINT64 - val % UINT64) % UINT64;
      NegateUnsigned(val);
      len := Utoa(buf, 1, u, 10);
      len := 1 + len;
      assert buf[..1] == "-";
      assert buf[..len] == buf[..1] + buf[1..len];
    } else {
      len := Utoa(buf, 0, val, 10);
    }
  }

  // ----- Format specifiers -----

  datatype Width = Normal | Long | LongLong | Short | ShortShort
  datatype Kind = Signed | Unsigned | Hex | Binary | Octal | Text | Character | Percent | Invalid
  datatype Spec = Spec(width: Width, kind: Kind)

  /** The character at a position of a C string, which ends with a null character. */
  function Peek(fmt: string, i: nat): char { if i < |fmt| then fmt[i] else '\0' }

  function KindOf(c: char): Kind {
    match c
    case '%' => Percent
    case 'c' => Character
    case 'd' => Signed
    case 'u' => Unsigned
    case 'x' => Hex
    case 'o' => Octal
    case 'b' => Binary
    case 's' => Text
    case _ => Invalid
  }

  /** The length modifier at `i` and the number of its characters. */
  function ModifierAt(fmt: string, i: nat): (Width, nat) {
    if Peek(fmt, i) == 'l' && Peek(fmt, i + 1) == 'l' then (LongLong, 2)
    else if Peek(fmt, i) == 'l' then (Long, 1)
    else if Peek(fmt, i) == 'h' then (ShortShort, 1)
    else (Normal, 0)
  }

  /** The specifier at the percent sign at `i`, and its length; an invalid one has length one. */
  function SpecAt(fmt: string, i: nat): (r: (Spec, nat))
    requires i < |fmt| && '\0' !in fmt
    ensures r.1 > 0 && i + r.1 <= |fmt|
  {
    var (width, n) := ModifierAt(fmt, i + 1);
    var kind := KindOf(Peek(fmt, i + 1 + n));
    if kind == Invalid then (Spec(width, Invalid), 1) else (Spec(width, kind), n + 2)
  }

  /** The documented length modifiers, as they are written. */
  function Modifier(width: Width): string {
    match width
    case Normal => ""
    case Long => "l"
    case LongLong => "ll"
    case Short => "h"
    case ShortShort => "hh"
  }

  /** Every length may stand before an integral type, and none before the other types. */
  predicate Documented(width: Width, c: char) {
    var kind := KindOf(c);
    if kind == Percent || kind == Character || kind == Text then width == Normal else kind != Invalid
  }

  lemma PeekAt(fmt: string, i: nat, text: string, k: nat)
    requires k < |text| && i + |text| <= |fmt| && fmt[i..i + |text|] == text
    ensures Peek(fmt, i + k) == text[k]
  {
    assert fmt[i..i + |text|][k] == fmt[i + k];
  }

  /** A documented specifier is accepted, at its full length, iff its modifier is not `hh`. */
  lemma DocumentedIsAcceptedIff(fmt: string, i: nat, width: Width, c: char)
    requires '\0' !in fmt && Documented(width, c)
    requires i + |Modifier(width)| + 2 <= |fmt| && fmt[i..i + |Modifier(width)| + 2] == "%" + Modifier(width) + [c]
    ensures SpecAt(fmt, i).0.kind != Invalid <==> width != ShortShort
    ensures width != ShortShort ==> SpecAt(fmt, i).0.kind == KindOf(c) && SpecAt(fmt, i).1 == |Modifier(width)| + 2
    ensures width == ShortShort ==> SpecAt(fmt, i).1 == 1
  {
    var text := "%" + Modifier(width) + [c];
    PeekAt(fmt, i, text, 1);
    PeekAt(fmt, i, text, |text| - 1);
    if width == LongLong || width == ShortShort { PeekAt(fmt, i, text, 2); }
  }

  /** `_parse_format_spec`. */
  method ParseFormatSpec(fmt: string, i: nat) returns (spec: Spec, len: nat)
    requires i < |fmt| && '\0' !in fmt && fmt[i] == '%'
    ensures len == SpecAt(fmt, i).1 && spec.kind == SpecAt(fmt, i).0.kind
    ensures spec.kind != Invalid ==> spec == SpecAt(fmt, i).0
  {
    if Peek(fmt, i + 1) == '\0' {
      return Spec(Normal, Invalid), 1;
    }
    var it, width := i + 1, Normal;
    if Peek(fmt, it) == 'l' {
      while width != LongLong && Peek(fmt, it) == 'l'
        invariant (width, it) == (Normal, i + 1) || (width, it) == (Long, i + 2) || (width, it) == (LongLong, i + 3)
        invariant forall x :: i < x < it ==> Peek(fmt, x) == 'l'
        invariant Peek(fmt, i + 1) == 'l'
        decreases |fmt| - it
      {
        width := if width == Normal then Long else LongLong;
        it := it + 1;
      }
    } else if Peek(fmt, it) == 'h' {
      width := Short;
      while width != ShortShort && Peek(fmt, it) == 'h'
        invariant (width, it) == (Short, i + 1) || (width, it) == (ShortShort, i + 2)
        decreases |fmt| - it
      {
        width := ShortShort;
        it := it + 1;
      }
    }
    var kind := KindOf(Peek(fmt, it));
    if kind == Invalid {
      return Spec(width, Invalid), 1;
    }
    return Spec(width, kind), it + 1 - i;
  }

  // ----- Formatting -----

  datatype Arg = Num(value: int) | Chr(c: char) | Str(s: string)

  /** The range of the argument that a specifier reads. */
  predicate ArgInRange(spec: Spec, v: int) {
    var wide := spec.width == Long || spec.width == LongLong;
    if spec.kind == Signed then (if wide then -INT64 <= v < INT64 else -INT32 <= v < INT32)
    else 0 <= v < if wide then UINT64 else UINT32
  }

  function Radix(kind: Kind): nat {
    match kind
    case Binary => 2
    case Octal => 8
    case Unsigned => 10
    case _ => 16
  }

  function Takes(spec: Spec): nat { if spec.kind == Percent || spec.kind == Invalid then 0 else 1 }

  /** The argument is one that the specifier may be used with. */
  predicate Suits(spec: Spec, args: seq<Arg>) {
    if spec.kind == Percent || spec.kind == Invalid then true
    else if args == [] then false
    else if spec.kind == Character then args[0].Chr?
    else if spec.kind == Text then args[0].Str? && '\0' !in args[0].s
    else args[0].Num? && ArgInRange(spec, args[0].value)
  }

  /** What a specifier prints. */
  function Piece(spec: Spec, args: seq<Arg>): string
    requires Suits(spec, args)
  {
    match spec.kind
    case Percent => "%"
    case Invalid => ""
    case Character => [args[0].c]
    case Text => args[0].s
    case Signed => SignedNumeral(args[0].value)
    case _ => Numeral(args[0].value, Radix(spec.kind))
  }

  /** The values that an integral argument may have: of 64 bits after `l` or `ll`, and else of 32 bits. */
  predicate MayPrint(width: Width, c: char, v: int) {
    var wide := width == Long || width == LongLong;
    if c == 'd' then (if wide then -0x8000_0000_0000_0000 <= v < 0x8000_0000_0000_0000 else -0x8000_0000 <= v < 0x8000_0000)
    else 0 <= v < if wide then 0x1_0000_0000_0000_0000 else 0x1_0000_0000
  }

  /** The base in which a type character prints. */
  predicate Prints(c: char, base: nat) {
    (c == 'u' && base == 10) || (c == 'x' && base == 16) || (c == 'o' && base == 8) || (c == 'b' && base == 2)
  }

  /** What is printed reads back, in the base that the type character stands for. */
  lemma UnsignedReadsBack(width: Width, c: char, base: nat, v: int)
    requires Prints(c, base) && MayPrint(width, c, v)
    ensures var spec := Spec(width, KindOf(c));
            Suits(spec, [Num(v)]) && Takes(spec) == 1 && Value(Piece(spec, [Num(v)]), base) == v
  {
    assert Radix(KindOf(c)) == base;
    NumeralRoundTrip(v, base);
  }

  lemma SignedReadsBack(width: Width, v: int)
    requires MayPrint(width, 'd', v)
    ensures var spec := Spec(width, KindOf('d'));
            Suits(spec, [Num(v)]) && Takes(spec) == 1 && SignedValue(Piece(spec, [Num(v)])) == v
  {
    SignedRoundTrip(v);
  }

  /** The other types print their argument as it is, and a doubled percent sign prints one. */
  lemma OthersPrintAsTheyAre(width: Width, c: char, text: string)
    requires '\0' !in text
    ensures var s := Spec(width, KindOf('c')); Suits(s, [Chr(c)]) && Takes(s) == 1 && Piece(s, [Chr(c)]) == [c]
    ensures var s := Spec(width, KindOf('s')); Suits(s, [Str(text)]) && Takes(s) == 1 && Piece(s, [Str(text)]) == text
    ensures var s := Spec(width, KindOf('%')); Suits(s, []) && Takes(s) == 0 && Piece(s, []) == "%"
  {
  }

  /** The arguments are those that the format from `i` on asks for. */
  ghost predicate Fits(fmt: string, i: nat, args: seq<Arg>)
    requires i <= |fmt| && '\0' !in fmt
    decreases |fmt| - i
  {
    if i == |fmt| then true
    else if fmt[i] != '%' then Fits(fmt, i + 1, args)
    else
      var (spec, n) := SpecAt(fmt, i);
      Suits(spec, args) && Fits(fmt, i + n, args[Takes(spec)..])
  }

  /** The whole text. */
  ghost function Full(fmt: string, i: nat, args: seq<Arg>): string
    requires i <= |fmt| && '\0' !in fmt && Fits(fmt, i, args)
    decreases |fmt| - i
  {
    if i == |fmt| then ""
    else if fmt[i] != '%' then [fmt[i]] + Full(fmt, i + 1, args)
    else
      var (spec, n) := SpecAt(fmt, i);
      Piece(spec, args) + Full(fmt, i + n, args[Takes(spec)..])
  }

  // ----- What a format means -----

  lemma PeekShift(a: string, b: string, i: nat)
    ensures Peek(a + b, |a| + i) == Peek(b, i)
  {
  }

  lemma SpecShift(a: string, b: string, i: nat)
    requires i < |b| && '\0' !in a + b && '\0' !in b
    ensures SpecAt(a + b, |a| + i) == SpecAt(b, i)
  {
    PeekShift(a, b, i + 1);
    PeekShift(a, b, i + 2);
    PeekShift(a, b, i + 3);
  }

  /** The text of a format from `|a|` on does not depend on what stands before. */
  lemma {:induction false} FullShift(a: string, b: string, i: nat, args: seq<Arg>)
    requires i <= |b| && '\0' !in a + b && '\0' !in b
    ensures Fits(a + b, |a| + i, args) <==> Fits(b, i, args)
    ensures Fits(b, i, args) ==> Full(a + b, |a| + i, args) == Full(b, i, args)
    decreases |b| - i
  {
    if i == |b| {
    } else if b[i] != '%' {
      FullShift(a, b, i + 1, args);
    } else {
      SpecShift(a, b, i);
      var (spec, n) := SpecAt(b, i);
      if Suits(spec, args) { FullShift(a, b, i + n, args[Takes(spec)..]); }
    }
  }

  /** Characters other than percent signs are printed as they are. */
  lemma {:induction false} PlainText(a: string, b: string, args: seq<Arg>)
    requires '\0' !in a + b && '\0' !in b && '%' !in a
    ensures Fits(a + b, 0, args) <==> Fits(b, 0, args)
    ensures Fits(b, 0, args) ==> Full(a + b, 0, args) == a + Full(b, 0, args)
    decreases |a|
  {
    if a == "" {
      assert a + b == b;
      assert Fits(b, 0, args) ==> a + Full(b, 0, args) == Full(b, 0, args);
    } else {
      var rest := a[1..] + b;
      assert a + b == [a[0]] + rest;
      assert forall c :: c in rest ==> c in a + b;
      PlainText(a[1..], b, args);
      FullShift([a[0]], rest, 0, args);
      assert a == [a[0]] + a[1..];
      if Fits(b, 0, args) { Assoc([a[0]], a[1..], Full(b, 0, args)); }
    }
  }

  /** A documented specifier other than `hh` prints what its type and its argument say, and then the format goes on with
      the other arguments. */
  lemma SpecifierPrints(width: Width, c: char, b: string, args: seq<Arg>)
    requires Documented(width, c) && width != ShortShort && '\0' !in "%" + Modifier(width) + [c] + b && '\0' !in b
    ensures var fmt := "%" + Modifier(width) + [c] + b;
            var spec := SpecAt(fmt, 0).0;
            && spec.kind == KindOf(c)
            && (Fits(fmt, 0, args) <==> Suits(spec, args) && Fits(b, 0, args[Takes(spec)..]))
            && (Fits(fmt, 0, args) ==> Full(fmt, 0, args) == Piece(spec, args) + Full(b, 0, args[Takes(spec)..]))
  {
    var head := "%" + Modifier(width) + [c];
    var fmt := head + b;
    assert fmt[0..|head|] == head;
    DocumentedIsAcceptedIff(fmt, 0, width, c);
    var spec := SpecAt(fmt, 0).0;
    if Suits(spec, args) { FullShift(head, b, 0, args[Takes(spec)..]); }
  }

  // ----- Writing -----

  /** A buffer of `len` characters is as large as is claimed, or holds `k` characters. */
  ghost predicate HasRoom(len: nat, n: nat, k: nat) { n <= len || k <= len }

  /** The buffer after `out` has been written into its first `n` places, where it had `was` before. */
  ghost predicate Holds(buf: seq<char>, was: seq<char>, n: nat, out: string)
    requires |buf| == |was|
  {
    forall x :: 0 <= x < |buf| ==> buf[x] == if x < n && x < |out| then out[x] else was[x]
  }

  /** Write a piece after `out`, one character at a time, dropping what is beyond `n`. */
  method WriteText(buf: array<char>, n: nat, text: string, ghost was: seq<char>, ghost out: string, j: nat) returns (j': nat)
    requires buf.Length == |was| && HasRoom(|was|, n, |out + text|) && j == |out| && Holds(buf[..], was, n, out)
    modifies buf
    ensures j' == |out + text| && Holds(buf[..], was, n, out + text)
  {
    j' := j;
    for k := 0 to |text|
      invariant j' == j + k && Holds(buf[..], was, n, out + text[..k])
    {
      BufWriter(text[k], buf, j', n);
      assert out + text[..k + 1] == out + text[..k] + [text[k]];
      j' := j' + 1;
    }
    assert text[..|text|] == text;
  }

  /** `_buf_writer`. */
  method BufWriter(c: char, buf: array<char>, i: int, n: nat)
    requires i >= 0 && (i < n ==> i < buf.Length)
    modifies buf
    ensures buf[..] == if i < n then old(buf[..])[i := c] else old(buf[..])
  {
    if i >= n {
      return;
    }
    buf[i] := c;
  }

  /** One case of the switch over specifiers. */
  method WriteSpec(buf: array<char>, n: nat, scratch: array<char>, spec: Spec, args: seq<Arg>,
                   ghost was: seq<char>, ghost out: string, j: nat)
    returns (j': nat)
    requires Suits(spec, args) && scratch != buf && scratch.Length == 64
    requires buf.Length == |was| && HasRoom(|was|, n, |out + Piece(spec, args)|) && j == |out| && Holds(buf[..], was, n, out)
    modifies buf, scratch
    ensures j' == |out + Piece(spec, args)| && Holds(buf[..], was, n, out + Piece(spec, args))
  {
    match spec.kind
    case Percent => j' := WriteText(buf, n, "%", was, out, j);
    case Invalid => j' := j; assert out + "" == out;
    case Character => j' := WriteText(buf, n, [args[0].c], was, out, j);
    case Text => j' := WriteText(buf, n, args[0].s, was, out, j);
    case Signed =>
      var len := Itoa(scratch, args[0].value);
      j' := WriteText(buf, n, scratch[..len], was, out, j);
    case _ =>
      NumeralFits(args[0].value, Radix(spec.kind));
      var len := Utoa(scratch, 0, args[0].value, Radix(spec.kind));
      j' := WriteText(buf, n, scratch[..len], was, out, j);
  }

  /** One turn of the loop over the format. */
  method FormatStep(buf: array<char>, n: nat, scratch: array<char>, fmt: string, i: nat, args: seq<Arg>,
                    ghost was: seq<char>, ghost out: string, j: nat)
    returns (i': nat, args': seq<Arg>, j': nat, ghost piece: string)
    requires i < |fmt| && '\0' !in fmt && Fits(fmt, i, args) && scratch != buf && scratch.Length == 64
    requires buf.Length == |was| && HasRoom(|was|, n, |out + Full(fmt, i, args)|) && j == |out| && Holds(buf[..], was, n, out)
    modifies buf, scratch
    ensures i < i' <= |fmt| && Fits(fmt, i', args') && Full(fmt, i, args) == piece + Full(fmt, i', args')
    ensures j' == |out + piece| && Holds(buf[..], was, n, out + piece)
  {
    if fmt[i] == '%' {
      var spec, len := ParseFormatSpec(fmt, i);
      PieceIgnoresInvalidWidth(spec, SpecAt(fmt, i).0, args);
      piece := Piece(spec, args);
      j' := WriteSpec(buf, n, scratch, spec, args, was, out, j);
      i', args' := i + len, args[Takes(spec)..];
    } else {
      piece := [fmt[i]];
      j' := WriteText(buf, n, [fmt[i]], was, out, j);
      i', args' := i + 1, args;
    }
  }

  /** The loop over the format. */
  method WriteFormat(buf: array<char>, n: nat, fmt: string, start: nat, args: seq<Arg>) returns (j: nat)
    requires '\0' !in fmt && start <= |fmt| && Fits(fmt, start, args) && HasRoom(buf.Length, n, |Full(fmt, start, args)|)
    modifies buf
    ensures j == |Full(fmt, start, args)| && Holds(buf[..], old(buf[..]), n, Full(fmt, start, args))
  {
    var scratch := new char[64];
    var i, rest := start, args;
    j := 0;
    ghost var was, out, piece := buf[..], "", "";
    while i < |fmt|
      invariant i <= |fmt| && j == |out| && Holds(buf[..], was, n, out)
      invariant Fits(fmt, i, rest) && Full(fmt, start, args) == out + Full(fmt, i, rest)
      decreases |fmt| - i
    {
      i, rest, j, piece := FormatStep(buf, n, scratch, fmt, i, rest, was, out, j);
      Assoc(out, piece, Full(fmt, i, rest));
      out := out + piece;
    }
  }

  /** Where the text ends: after all of it, or where just the terminator still fits. */
  function End(n: nat, len: nat): (m: nat)
    ensures n > 0 ==> m < n && m <= len && (m == len || m == n - 1)
  {
    if len < n then len else if n > 0 then n - 1 else 0
  }

  /** The first characters of the text, at most `n - 1`, a terminator, and then what was there before. */
  ghost predicate Truncated(buf: seq<char>, was: seq<char>, n: nat, full: string)
    requires 0 < n && |buf| == |was| && HasRoom(|buf|, n, |full| + 1)
  {
    var m := End(n, |full|);
    buf[..m] == full[..m] && buf[m] == '\0' && buf[m + 1..] == was[m + 1..]
  }

  lemma Terminated(mid: seq<char>, was: seq<char>, n: nat, full: string)
    requires 0 < n && |mid| == |was| && HasRoom(|mid|, n, |full| + 1) && Holds(mid, was, n, full)
    ensures Truncated(mid[End(n, |full|) := '\0'], was, n, full)
  {
  }

  /** Null-terminate. The index is computed in 32 bits, so a size of zero makes it the largest one. */
  method Terminate(buf: array<char>, n: nat, j: nat, ghost full: string, ghost was: seq<char>)
    requires buf.Length == |was| && HasRoom(|was|, n, |full| + 1) && n < UINT32 && j == |full| && Holds(buf[..], was, n, full)
    modifies buf
    ensures if n == 0 then buf[..] == was else Truncated(buf[..], was, n, full)
  {
    if n > 0 { Terminated(buf[..], was, n, full); }
    BufWriter('\0', buf, if j < n then j else (n - 1) % UINT32, n);
  }

  /** `_vsnprintf` for a claimed size of `n`, which may be more than the buffer has if the whole text fits;
      the result is the length of the whole text. */
  method Vsnprintf(buf: array<char>, n: nat, fmt: string, args: seq<Arg>) returns (r: int)
    requires n < UINT32 && '\0' !in fmt && Fits(fmt, 0, args) && |Full(fmt, 0, args)| < INT32
    requires HasRoom(buf.Length, n, |Full(fmt, 0, args)| + 1)
    modifies buf
    ensures r == |Full(fmt, 0, args)|
    ensures if n == 0 then buf[..] == old(buf[..]) else Truncated(buf[..], old(buf[..]), n, Full(fmt, 0, args))
  {
    ghost var was := buf[..];
    r := WriteFormat(buf, n, fmt, 0, args);
    Terminate(buf, n, r, Full(fmt, 0, args), was);
  }

  /** `vsprintf`: the largest size, so that the whole text is written. */
  method Vsprintf(buf: array<char>, fmt: string, args: seq<Arg>) returns (r: int)
    requires '\0' !in fmt && Fits(fmt, 0, args) && |Full(fmt, 0, args)| < INT32 && |Full(fmt, 0, args)| < buf.Length
    modifies buf
    ensures r == |Full(fmt, 0, args)| && buf[..r] == Full(fmt, 0, args) && buf[r] == '\0' && buf[r + 1..] == old(buf[r + 1..])
  {
    r := Vsnprintf(buf, UINT32 - 1, fmt, args);
  }

  lemma PieceIgnoresInvalidWidth(spec: Spec, spec': Spec, args: seq<Arg>)
    requires spec.kind == spec'.kind && (spec.kind != Invalid ==> spec == spec')
    ensures Suits(spec, args) == Suits(spec', args) && Takes(spec) == Takes(spec')
    ensures Suits(spec, args) ==> Piece(spec, args) == Piece(spec', args)
  {
  }
}
