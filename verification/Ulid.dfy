/** The identifiers of model/id.go: a 48-bit time and 80 random bits, written
    as 26 digits of Crockford's base 32 (ULID specification, sections
    "Encoding" and "Sorting"). */
module Ulid {
  import opened Arithmetic
  import opened Order

  const CROCKFORD := "0123456789ABCDEFGHJKMNPQRSTVWXYZ"
  const ID_LENGTH := 26

  type Byte = b: int | 0 <= b < 256

  datatype Result<T> = Ok(value: T) | RandomFailed

  // ---------------------------------------------------------------- numerals

  function Pow(base: nat, n: nat): nat {
    if n == 0 then 1 else Pow(base, n - 1) * base
  }

  /** The number a big-endian list of digits stands for. */
  function Numeral(base: nat, digits: seq<nat>): nat {
    if digits == [] then 0
    else Numeral(base, digits[..|digits| - 1]) * base + digits[|digits| - 1]
  }

  ghost predicate Digits(base: nat, s: seq<nat>) {
    forall i :: 0 <= i < |s| ==> s[i] < base
  }

  lemma NumeralOfNone(base: nat)
    ensures Numeral(base, []) == 0
  {
  }

  lemma NumeralSnoc(base: nat, a: seq<nat>, x: nat)
    ensures Numeral(base, a + [x]) == Numeral(base, a) * base + x
  {
    assert (a + [x])[..|a + [x]| - 1] == a;
  }

  lemma Regroup(h: nat, p: nat, l: nat, base: nat)
    ensures (h * p + l) * base == h * (p * base) + l * base
  {
  }

  lemma {:induction false} NumeralConcat(base: nat, a: seq<nat>, b: seq<nat>)
    ensures Numeral(base, a + b) == Numeral(base, a) * Pow(base, |b|) + Numeral(base, b)
  {
    if b == [] {
      assert a + b == a;
    } else {
      var b', x := b[..|b| - 1], b[|b| - 1];
      assert b == b' + [x] && a + b == (a + b') + [x];
      NumeralConcat(base, a, b');
      NumeralSnoc(base, a + b', x);
      NumeralSnoc(base, b', x);
      Regroup(Numeral(base, a), Pow(base, |b'|), Numeral(base, b'), base);
    }
  }

  lemma DigitBelow(l: nat, p: nat, x: nat, base: nat)
    requires l < p && x < base
    ensures l * base + x < p * base
  {
    Monotone(l + 1, p, base);
    assert (l + 1) * base == l * base + base;
  }

  lemma {:induction false} NumeralBound(base: nat, s: seq<nat>)
    requires Digits(base, s)
    ensures Numeral(base, s) < Pow(base, |s|)
  {
    if s != [] {
      NumeralBound(base, s[..|s| - 1]);
      DigitBelow(Numeral(base, s[..|s| - 1]), Pow(base, |s| - 1), s[|s| - 1], base);
    }
  }

  /** The digits of `n`, padded to `len` places. */
  function ToDigits(base: nat, len: nat, n: nat): (s: seq<nat>)
    requires base > 0
    ensures |s| == len && Digits(base, s)
  {
    if len == 0 then [] else ToDigits(base, len - 1, n / base) + [n % base]
  }

  lemma QuotientRest(n: nat, m: nat)
    requires m > 0
    ensures n == n / m * m + n % m && 0 <= n % m < m
  {
  }

  lemma Recompose(n: nat, base: nat, p: nat, q: nat, h: nat, l: nat, x: nat)
    requires q == h * p + l && n == q * base + x && l < p && x < base
    ensures p * base > 0 && n % (p * base) == l * base + x
  {
    Regroup(h, p, l, base);
    DigitBelow(l, p, x, base);
    RemainderUnique(n, p * base, h, l * base + x);
  }

  lemma SplitRemainder(n: nat, base: nat, p: nat)
    requires base > 0 && p > 0
    ensures p * base > 0 && n % (p * base) == n / base % p * base + n % base
  {
    var q, x := n / base, n % base;
    QuotientRest(n, base);
    QuotientRest(q, p);
    Recompose(n, base, p, q, q / p, q % p, x);
  }

  lemma {:induction false} ToDigitsValue(base: nat, len: nat, n: nat)
    requires base > 0
    ensures Pow(base, len) > 0 && Numeral(base, ToDigits(base, len, n)) == n % Pow(base, len)
  {
    if len > 0 {
      ToDigitsValue(base, len - 1, n / base);
      NumeralSnoc(base, ToDigits(base, len - 1, n / base), n % base);
      SplitRemainder(n, base, Pow(base, len - 1));
    }
  }

  lemma ToDigitsExact(base: nat, len: nat, n: nat)
    requires base > 0 && n < Pow(base, len)
    ensures Numeral(base, ToDigits(base, len, n)) == n
  {
    ToDigitsValue(base, len, n);
    RemainderUnique(n, Pow(base, len), 0, n);
  }

  /** A number splits into quotient and digit in one way. */
  lemma QuotientUnique(base: nat, q: nat, x: nat, r: nat, y: nat)
    requires x < base && y < base
    ensures q * base + x < r * base + y <==> q < r || (q == r && x < y)
  {
    if q < r { assert (q + 1) * base <= r * base; }
    if r < q { assert (r + 1) * base <= q * base; }
  }

  lemma {:induction false} NumeralInjective(base: nat, a: seq<nat>, b: seq<nat>)
    requires |a| == |b| && Digits(base, a) && Digits(base, b)
    requires Numeral(base, a) == Numeral(base, b)
    ensures a == b
  {
    if a != [] {
      var a', x, b', y := a[..|a| - 1], a[|a| - 1], b[..|b| - 1], b[|b| - 1];
      QuotientUnique(base, Numeral(base, a'), x, Numeral(base, b'), y);
      QuotientUnique(base, Numeral(base, b'), y, Numeral(base, a'), x);
      NumeralInjective(base, a', b');
      assert a == a' + [x] && b == b' + [y];
    }
  }

  // -------------------------------------------------------------- bit stream

  /** Bit `k` of the data, counted from the most significant one. */
  function Bit(data: seq<Byte>, k: nat): (r: nat)
    requires k < 8 * |data|
    ensures r < 2
  {
    ByteBit(data[k / 8], k % 8)
  }

  function Shift(b: Byte, n: nat): nat {
    if n == 0 then b else Shift(b, n - 1) / 2
  }

  function ByteBit(b: Byte, k: nat): nat
    requires k < 8
  {
    Shift(b, 7 - k) % 2
  }

  function Bits(data: seq<Byte>): (r: seq<nat>)
    ensures |r| == 8 * |data|
  {
    seq(8 * |data|, k requires 0 <= k < 8 * |data| => Bit(data, k))
  }

  /** The 130 bits the 26 digits are cut from: the data behind two zeros. */
  function Stream(data: seq<Byte>): (r: seq<nat>)
    ensures |r| == 8 * |data| + 2
  {
    [0, 0] + Bits(data)
  }

  lemma {:induction false} ByteOfBits(b: Byte, bits: seq<nat>)
    requires |bits| <= 8 && forall k :: 0 <= k < |bits| ==> bits[k] == ByteBit(b, k)
    ensures Numeral(2, bits) == Shift(b, 8 - |bits|)
  {
    if bits == [] {
      assert Shift(b, 1) < 128 && Shift(b, 2) < 64 && Shift(b, 3) < 32;
      assert Shift(b, 4) < 16 && Shift(b, 5) < 8 && Shift(b, 6) < 4 && Shift(b, 7) < 2;
    } else {
      ByteOfBits(b, bits[..|bits| - 1]);
    }
  }

  /** The bits of the data and its bytes are the same number. */
  lemma {:induction false} BitsAreBytes(data: seq<Byte>)
    ensures Numeral(2, Bits(data)) == Numeral(256, data)
  {
    if data != [] {
      var n := |data| - 1;
      var front, last := data[..n], Bits(data)[8 * n..];
      forall k | 0 <= k < 8 ensures last[k] == ByteBit(data[n], k) {
        assert (8 * n + k) / 8 == n && (8 * n + k) % 8 == k;
      }
      assert Bits(data) == Bits(front) + last;
      NumeralConcat(2, Bits(front), last);
      ByteOfBits(data[n], last);
      assert Pow(2, 8) == 256 by { assert Pow(2, 2) == 4; assert Pow(2, 4) == 16; assert Pow(2, 6) == 64; }
      BitsAreBytes(front);
    }
  }

  /** The digits cut from a stream of bits, five bits each. */
  function Chunks(bits: seq<nat>, n: nat): (r: seq<nat>)
    requires |bits| == 5 * n
    ensures |r| == n
  {
    seq(n, i requires 0 <= i < n => Numeral(2, bits[5 * i..5 * i + 5]))
  }

  lemma {:induction false} ChunksAreBits(bits: seq<nat>, n: nat)
    requires |bits| == 5 * n
    ensures Numeral(32, Chunks(bits, n)) == Numeral(2, bits)
  {
    if n > 0 {
      var front, last := bits[..5 * (n - 1)], bits[5 * (n - 1)..];
      forall i | 0 <= i < n - 1 ensures Chunks(bits, n)[i] == Chunks(front, n - 1)[i] {
        assert front[5 * i..5 * i + 5] == bits[5 * i..5 * i + 5];
      }
      assert bits[5 * (n - 1)..5 * (n - 1) + 5] == last;
      assert Chunks(bits, n) == Chunks(front, n - 1) + [Numeral(2, last)];
      NumeralSnoc(32, Chunks(front, n - 1), Numeral(2, last));
      ChunksAreBits(front, n - 1);
      assert bits == front + last;
      NumeralConcat(2, front, last);
      assert Pow(2, 5) == 32 by { assert Pow(2, 2) == 4; assert Pow(2, 4) == 16; }
    }
  }

  lemma ChunkBound(data: seq<Byte>, i: nat)
    requires |data| == 16 && i < ID_LENGTH
    ensures Chunks(Stream(data), ID_LENGTH)[i] < 32
  {
    var chunk := Stream(data)[5 * i..5 * i + 5];
    assert Digits(2, chunk);
    NumeralBound(2, chunk);
    assert Pow(2, 5) == 32 by { assert Pow(2, 2) == 4; assert Pow(2, 4) == 16; }
  }

  lemma StreamIsData(data: seq<Byte>)
    requires |data| == 16
    ensures Numeral(32, Chunks(Stream(data), ID_LENGTH)) == Numeral(256, data)
    ensures Digits(32, Chunks(Stream(data), ID_LENGTH))
  {
    forall i | 0 <= i < ID_LENGTH ensures Chunks(Stream(data), ID_LENGTH)[i] < 32 { ChunkBound(data, i); }
    ChunksAreBits(Stream(data), ID_LENGTH);
    NumeralConcat(2, [0, 0], Bits(data));
    assert [0, 0][..1] == [0];
    BitsAreBytes(data);
  }

  // ------------------------------------------------------------- identifiers

  ghost predicate Valid(id: string) {
    |id| == ID_LENGTH && forall i :: 0 <= i < |id| ==> id[i] in CROCKFORD
  }

  lemma AlphabetIncreasing(i: nat, j: nat)
    requires i < j < 32
    ensures |CROCKFORD| == 32 && CROCKFORD[i] < CROCKFORD[j]
    decreases j - i
  {
    if i + 1 < j { AlphabetIncreasing(i + 1, j); }
    AlphabetStep(i);
  }

  lemma AlphabetStep(i: nat)
    requires i < 31
    ensures CROCKFORD[i] < CROCKFORD[i + 1]
  {
  }

  function Chars(digits: seq<nat>): (s: string)
    requires Digits(32, digits)
    ensures |s| == |digits|
  {
    seq(|digits|, i requires 0 <= i < |digits| => CROCKFORD[digits[i]])
  }

  ghost function DigitOf(c: char): (d: nat)
    requires c in CROCKFORD
    ensures d < 32 && CROCKFORD[d] == c
  {
    var d: nat :| d < |CROCKFORD| && CROCKFORD[d] == c;
    d
  }

  ghost function DigitsOf(id: string): (s: seq<nat>)
    requires forall i :: 0 <= i < |id| ==> id[i] in CROCKFORD
    ensures Digits(32, s) && Chars(s) == id
  {
    seq(|id|, i requires 0 <= i < |id| => DigitOf(id[i]))
  }

  /** The number an identifier stands for. */
  ghost function Value(id: string): nat
    requires Valid(id)
  {
    Numeral(32, DigitsOf(id))
  }

  lemma DigitUnique(d: nat, e: nat)
    requires d < 32 && e < 32 && CROCKFORD[d] == CROCKFORD[e]
    ensures d == e
  {
    if d < e { AlphabetIncreasing(d, e); }
    if e < d { AlphabetIncreasing(e, d); }
  }

  lemma CharsInverse(digits: seq<nat>)
    requires Digits(32, digits)
    ensures forall i :: 0 <= i < |digits| ==> Chars(digits)[i] in CROCKFORD
    ensures DigitsOf(Chars(digits)) == digits
  {
    forall i | 0 <= i < |digits| ensures Chars(digits)[i] in CROCKFORD && DigitOf(Chars(digits)[i]) == digits[i] {
      DigitUnique(DigitOf(Chars(digits)[i]), digits[i]);
    }
  }

  /** What the nested bit loops of NewID write for sixteen bytes. */
  function Encode(data: seq<Byte>): (id: string)
    requires |data| == 16
    ensures |id| == ID_LENGTH
  {
    StreamIsData(data);
    Chars(Chunks(Stream(data), ID_LENGTH))
  }

  /** The six time bytes: a narrowing of the time to its low 48 bits. */
  function TimeBytes(ms: int): (data: seq<Byte>)
    ensures |data| == 6
  {
    var u := ms % 0x1_0000_0000_0000_0000;
    [u / 0x100_0000_0000 % 256, u / 0x1_0000_0000 % 256, u / 0x100_0000 % 256,
     u / 0x1_0000 % 256, u / 0x100 % 256, u % 256]
  }

  lemma ShiftTwice(u: nat)
    ensures u / 0x100 / 0x100 == u / 0x1_0000
    ensures u / 0x1_0000 / 0x100 == u / 0x100_0000
    ensures u / 0x100_0000 / 0x100 == u / 0x1_0000_0000
    ensures u / 0x1_0000_0000 / 0x100 == u / 0x100_0000_0000
  {
  }

  lemma TimeBytesAreDigits(ms: int)
    ensures TimeBytes(ms) == ToDigits(256, 6, ms % 0x1_0000_0000_0000_0000)
  {
    var u := ms % 0x1_0000_0000_0000_0000;
    ShiftTwice(u);
    assert ToDigits(256, 2, u / 0x1_0000_0000) == [u / 0x100_0000_0000 % 256, u / 0x1_0000_0000 % 256];
    assert ToDigits(256, 4, u / 0x1_0000)
        == ToDigits(256, 2, u / 0x1_0000_0000) + [u / 0x100_0000 % 256, u / 0x1_0000 % 256];
    assert ToDigits(256, 6, u) == ToDigits(256, 4, u / 0x1_0000) + [u / 0x100 % 256, u % 256];
  }

  lemma Pow256()
    ensures Pow(256, 6) == 0x1_0000_0000_0000
  {
    assert Pow(256, 2) == 0x1_0000 && Pow(256, 4) == 0x1_0000_0000;
  }

  /** The narrowing to 64 bits and then to 48 keeps the low 48 bits. */
  lemma LowBits(ms: int)
    ensures ms % 0x1_0000_0000_0000_0000 % 0x1_0000_0000_0000 == ms % 0x1_0000_0000_0000
  {
    var a, u := ms / 0x1_0000_0000_0000_0000, ms % 0x1_0000_0000_0000_0000;
    var b, r := u / 0x1_0000_0000_0000, u % 0x1_0000_0000_0000;
    assert ms == (a * 0x1_0000 + b) * 0x1_0000_0000_0000 + r;
  }

  lemma TimeBytesValue(ms: int)
    ensures Numeral(256, TimeBytes(ms)) == ms % 0x1_0000_0000_0000
  {
    var u := ms % 0x1_0000_0000_0000_0000;
    assert Numeral(256, TimeBytes(ms)) == u % Pow(256, 6) by {
      TimeBytesAreDigits(ms);
      ToDigitsValue(256, 6, u);
    }
    Pow256();
    LowBits(ms);
  }

  /** The bit loops write the base-32 numeral of the 128-bit value, and every
      identifier they write is accepted. */
  lemma EncodeIsNumeral(data: seq<Byte>)
    requires |data| == 16
    ensures Valid(Encode(data)) && Value(Encode(data)) == Numeral(256, data)
  {
    StreamIsData(data);
    CharsInverse(Chunks(Stream(data), ID_LENGTH));
  }

  lemma EncodeInjective(a: seq<Byte>, b: seq<Byte>)
    requires |a| == 16 && |b| == 16 && Encode(a) == Encode(b)
    ensures a == b
  {
    EncodeIsNumeral(a);
    EncodeIsNumeral(b);
    NumeralInjective(256, a, b);
  }

  lemma LeadingDigit(digits: seq<nat>)
    requires |digits| > 0 && Digits(32, digits)
    ensures Numeral(32, digits) < 8 * Pow(32, |digits| - 1) <==> digits[0] < 8
  {
    var d, rest := digits[0], digits[1..];
    assert digits == [d] + rest && [d][..0] == [];
    assert Numeral(32, [d]) == d;
    NumeralConcat(32, [d], rest);
    NumeralBound(32, rest);
    QuotientUnique(Pow(32, |rest|), d, Numeral(32, rest), 8, 0);
  }

  /** The leading digit says whether the value fits 128 bits. */
  lemma ValueFits(id: string)
    requires Valid(id)
    ensures Value(id) < Pow(256, 16) <==> id[0] <= '7'
  {
    PowersMeet();
    LeadingDigit(DigitsOf(id));
    FirstDigit(DigitsOf(id)[0]);
  }

  /** A valid identifier is one NewID can write exactly when its first digit
      is at most seven: 26 digits hold two bits more than the value has. */
  lemma EncodeOnto(id: string)
    requires Valid(id)
    ensures (exists data: seq<Byte> :: |data| == 16 && Encode(data) == id) <==> id[0] <= '7'
  {
    ValueFits(id);
    if id[0] <= '7' {
      var data := Decode(id);
      assert Encode(data) == id;
    }
    forall data: seq<Byte> | |data| == 16 && Encode(data) == id ensures id[0] <= '7' {
      EncodeIsNumeral(data);
      NumeralBound(256, data);
    }
  }

  /** The bytes behind an identifier: the inverse of Encode. */
  ghost function Decode(id: string): (data: seq<Byte>)
    requires Valid(id) && Value(id) < Pow(256, 16)
    ensures |data| == 16 && Encode(data) == id
  {
    ToDigitsExact(256, 16, Value(id));
    var data: seq<Byte> := ToDigits(256, 16, Value(id));
    EncodeIsNumeral(data);
    NumeralInjective(32, DigitsOf(Encode(data)), DigitsOf(id));
    data
  }

  lemma FirstDigit(d: nat)
    requires d < 32
    ensures CROCKFORD[d] <= '7' <==> d <= 7
  {
    if d < 7 { AlphabetIncreasing(d, 7); }
    if 7 < d { AlphabetIncreasing(7, d); }
  }

  lemma {:induction false} PowSplit(base: nat, a: nat, b: nat)
    ensures Pow(base, a + b) == Pow(base, a) * Pow(base, b)
  {
    if b > 0 {
      PowSplit(base, a, b - 1);
      var p, q := Pow(base, a), Pow(base, b - 1);
      assert (p * q) * base == p * (q * base);
    }
  }

  lemma PowersMeet()
    ensures Pow(256, 16) == 8 * Pow(32, 25)
  {
    assert Pow(256, 2) == 0x1_0000;
    PowSplit(256, 2, 2); PowSplit(256, 4, 4); PowSplit(256, 8, 8);
    assert Pow(32, 2) == 0x400 && Pow(32, 1) == 32;
    PowSplit(32, 2, 2); PowSplit(32, 4, 4); PowSplit(32, 8, 8); PowSplit(32, 16, 8); PowSplit(32, 24, 1);
  }

  /** Letters compare as their digits. */
  lemma LetterOrder(x: nat, y: nat)
    requires x < 32 && y < 32
    ensures CROCKFORD[x] < CROCKFORD[y] <==> x < y
    ensures CROCKFORD[x] == CROCKFORD[y] <==> x == y
  {
    if x < y { AlphabetIncreasing(x, y); }
    if y < x { AlphabetIncreasing(y, x); }
  }

  /** The last letter decides only between equal fronts. */
  lemma LastLetter(a: seq<nat>, x: nat, b: seq<nat>, y: nat)
    requires |a| == |b| && Digits(32, a) && Digits(32, b) && x < 32 && y < 32
    ensures Less(Chars(a) + [CROCKFORD[x]], Chars(b) + [CROCKFORD[y]]) <==>
      Less(Chars(a), Chars(b)) || (a == b && x < y)
  {
    hide Less, Chars;
    LessSnoc(Chars(a), Chars(b), CROCKFORD[x], CROCKFORD[y]);
    LetterOrder(x, y);
    CharsInverse(a);
    CharsInverse(b);
  }

  lemma CharsSnoc(a: seq<nat>, x: nat)
    requires Digits(32, a) && x < 32
    ensures Digits(32, a + [x]) && Chars(a + [x]) == Chars(a) + [CROCKFORD[x]]
  {
  }

  lemma {:induction false} CharsOrder(a: seq<nat>, b: seq<nat>)
    requires |a| == |b| && Digits(32, a) && Digits(32, b)
    ensures Less(Chars(a), Chars(b)) <==> Numeral(32, a) < Numeral(32, b)
  {
    if a != [] {
      hide Less, Numeral, Chars;
      var a', x, b', y := a[..|a| - 1], a[|a| - 1], b[..|b| - 1], b[|b| - 1];
      assert a == a' + [x] && b == b' + [y];
      NumeralSnoc(32, a', x);
      NumeralSnoc(32, b', y);
      CharsSnoc(a', x);
      CharsSnoc(b', y);
      LastLetter(a', x, b', y);
      CharsOrder(a', b');
      QuotientUnique(32, Numeral(32, a'), x, Numeral(32, b'), y);
      if Numeral(32, a') == Numeral(32, b') { NumeralInjective(32, a', b'); }
    }
  }

  /** Sorting: identifiers compare as strings the way their values compare. */
  lemma OrderIsNumeric(a: string, b: string)
    requires Valid(a) && Valid(b)
    ensures Less(a, b) <==> Value(a) < Value(b)
  {
    CharsOrder(DigitsOf(a), DigitsOf(b));
  }

  /** An identifier written at a later millisecond sorts later, whatever the
      random parts, while the time fits its 48 bits. */
  lemma TimeOrder(early: int, late: int, r: seq<Byte>, s: seq<Byte>)
    requires |r| == 10 && |s| == 10
    requires early % 0x1_0000_0000_0000 < late % 0x1_0000_0000_0000
    ensures Less(Encode(TimeBytes(early) + r), Encode(TimeBytes(late) + s))
  {
    EncodeIsNumeral(TimeBytes(early) + r);
    EncodeIsNumeral(TimeBytes(late) + s);
    NumeralConcat(256, TimeBytes(early), r);
    NumeralConcat(256, TimeBytes(late), s);
    TimeBytesValue(early);
    TimeBytesValue(late);
    NumeralBound(256, r);
    QuotientUnique(Pow(256, 10), early % 0x1_0000_0000_0000, Numeral(256, r), late % 0x1_0000_0000_0000,
        Numeral(256, s)) by {
      NumeralBound(256, s);
    }
    OrderIsNumeric(Encode(TimeBytes(early) + r), Encode(TimeBytes(late) + s));
  }

  /** NewID: `ms` is the Unix time in milliseconds, `random` what the system's
      random source returned. */
  method NewID(ms: int, random: Result<seq<Byte>>) returns (id: Result<string>)
    requires random.Ok? ==> |random.value| == 10
    ensures id.Ok? <==> random.Ok?
    ensures id.Ok? ==> Valid(id.value) && id.value == Encode(TimeBytes(ms) + random.value)
    ensures id.Ok? ==> Value(id.value) == ms % 0x1_0000_0000_0000 * Pow(256, 10) + Numeral(256, random.value)
  {
    if random.RandomFailed? { return RandomFailed; }
    var data := TimeBytes(ms) + random.value;
    var out := new char[ID_LENGTH];
    var i := 0;
    while i < ID_LENGTH
      invariant 0 <= i <= ID_LENGTH
      invariant forall k :: 0 <= k < i ==> out[k] == Encode(data)[k]
    {
      var value := FiveBits(data, i);
      ChunkBound(data, i);
      out[i] := CROCKFORD[value];
      i := i + 1;
    }
    id := Ok(out[..]);
    assert id.value == Encode(data);
    EncodeIsNumeral(data);
    NumeralConcat(256, TimeBytes(ms), random.value);
    TimeBytesValue(ms);
  }

  lemma StreamBit(data: seq<Byte>, i: nat, bit: nat)
    requires |data| == 16 && i < ID_LENGTH && bit < 5
    ensures var k := i * 5 + bit - 2;
            Stream(data)[5 * i..5 * i + 5][bit] == if 0 <= k < 128 then Bit(data, k) else 0
  {
    hide Bit;
  }

  /** The inner loop of NewID: five bits of the stream, shifted in one by one. */
  method FiveBits(data: seq<Byte>, i: nat) returns (value: nat)
    requires |data| == 16 && i < ID_LENGTH
    ensures value == Chunks(Stream(data), ID_LENGTH)[i]
  {
    hide Stream, Bit, Numeral;
    ghost var chunk := Stream(data)[5 * i..5 * i + 5];
    value := 0;
    var bit := 0;
    NumeralOfNone(2);
    while bit < 5
      invariant 0 <= bit <= 5
      invariant value == Numeral(2, chunk[..bit])
    {
      StreamBit(data, i, bit);
      NumeralSnoc(2, chunk[..bit], chunk[bit]);
      assert chunk[..bit + 1] == chunk[..bit] + [chunk[bit]];
      var streamBit := i * 5 + bit - 2;
      value := value * 2;
      if 0 <= streamBit < 128 {
        value := value + Bit(data, streamBit);
      }
      bit := bit + 1;
    }
    assert chunk[..5] == chunk;
  }

  /** ValidID accepts exactly 26 characters of the alphabet. */
  method ValidID(id: string) returns (ok: bool)
    ensures ok <==> Valid(id)
  {
    if |id| != ID_LENGTH { return false; }
    var i := 0;
    while i < |id|
      invariant 0 <= i <= |id|
      invariant forall k :: 0 <= k < i ==> id[k] in CROCKFORD
    {
      var valid := false;
      var j := 0;
      while j < |CROCKFORD|
        invariant 0 <= j <= |CROCKFORD|
        invariant !valid
        invariant forall k :: 0 <= k < j ==> CROCKFORD[k] != id[i]
      {
        if id[i] == CROCKFORD[j] {
          valid := true;
          break;
        }
        j := j + 1;
      }
      if !valid { return false; }
      i := i + 1;
    }
    return true;
  }
}
