/** The single-expression transforms of script.js: Caesar, Atbash, text reversal and the
    single-character XOR cipher. Each works through the text one element at a time. */
module Substitution {
  import opened Utf16

  // ---------------------------------------------------------------- Caesar

  /** The `replace` callback of caesarEncrypt for one code unit: an ASCII letter moves `shift`
      places within its case, with JavaScript's truncating `%`; anything else is not matched. */
  function CaesarUnit(c: CodeUnit, shift: int): (r: CodeUnit)
    ensures !IsLetter(c) ==> r == c
    ensures IsLetter(c) && 0 <= shift ==>
              IsLetter(r) && CaseBase(r) == CaseBase(c) && Pos(r) == (Pos(c) + shift) % 26
  {
    if IsLetter(c) then (JsRem(Pos(c) + shift, 26) + CaseBase(c)) as CodeUnit else c
  }

  /** caesarEncrypt(text, shift = 3). For a non-negative shift every letter moves forward
      by `shift` modulo 26 and keeps its case; everything else is left alone. */
  function CaesarEncrypt(text: Text, shift: int := 3): (r: Text)
    ensures |r| == |text|
    ensures forall i :: 0 <= i < |text| && !IsLetter(text[i]) ==> r[i] == text[i]
    ensures 0 <= shift ==> forall i :: 0 <= i < |text| && IsLetter(text[i]) ==>
              IsLetter(r[i]) && (IsUpper(r[i]) <==> IsUpper(text[i])) &&
              Pos(r[i]) == (Pos(text[i]) + shift) % 26
  {
    seq(|text|, i requires 0 <= i < |text| => CaesarUnit(text[i], shift))
  }

  /** caesarDecrypt(text, shift = 3), which is encryption by `26 - shift`. For a shift in
      0 .. 26 each letter moves back by `shift` modulo 26 and keeps its case. */
  function CaesarDecrypt(text: Text, shift: int := 3): (r: Text)
    ensures |r| == |text|
    ensures forall i :: 0 <= i < |text| && !IsLetter(text[i]) ==> r[i] == text[i]
    ensures 0 <= shift <= 26 ==> forall i :: 0 <= i < |text| && IsLetter(text[i]) ==>
              IsLetter(r[i]) && (IsUpper(r[i]) <==> IsUpper(text[i])) &&
              Pos(r[i]) == (Pos(text[i]) - shift) % 26
  {
    CaesarEncrypt(text, 26 - shift)
  }

  /** Moving forward by s and then forward by 26 - s lands on the starting place. */
  lemma ShiftThereAndBack(p: int, s: int)
    requires 0 <= p < 26 && 0 <= s <= 26
    ensures ((p + s) % 26 + (26 - s)) % 26 == p
  {
    if p + s < 26 {
      assert (p + s) % 26 == p + s;
    } else {
      assert (p + s) % 26 == p + s - 26;
    }
  }

  /** Decryption undoes encryption for every shift from 0 to 26. */
  lemma CaesarRoundTrip(text: Text, shift: int)
    requires 0 <= shift <= 26
    ensures CaesarDecrypt(CaesarEncrypt(text, shift), shift) == text
  {
    var e := CaesarEncrypt(text, shift);
    var d := CaesarDecrypt(e, shift);
    forall i | 0 <= i < |text|
      ensures d[i] == text[i]
    {
      if IsLetter(text[i]) {
        ShiftThereAndBack(Pos(text[i]), shift);
        assert Pos(d[i]) == (Pos(e[i]) + (26 - shift)) % 26;
        assert CaseBase(d[i]) == CaseBase(text[i]);
      }
    }
  }

  lemma CaesarExample()
    ensures CaesarEncrypt(Literal("abc")) == Literal("def")
    ensures CaesarDecrypt(Literal("def")) == Literal("abc")
  {
    CaesarRoundTrip(Literal("abc"), 3);
  }

  // ---------------------------------------------------------------- Atbash

  /** The `replace` callback of atbash: `25 - (lower-case code - 97)` plus the case base. */
  function AtbashUnit(c: CodeUnit): (r: CodeUnit)
    ensures !IsLetter(c) ==> r == c
    ensures IsLetter(c) ==> IsLetter(r) && CaseBase(r) == CaseBase(c) && Pos(r) == 25 - Pos(c)
  {
    if IsLetter(c) then (25 - (ToLower(c) as int - 97) + CaseBase(c)) as CodeUnit else c
  }

  /** atbash(text): every letter goes to its mirror in the alphabet (A and Z, B and Y, ...)
      within its case; everything else is left alone. */
  function Atbash(text: Text): (r: Text)
    ensures |r| == |text|
    ensures forall i :: 0 <= i < |text| && !IsLetter(text[i]) ==> r[i] == text[i]
    ensures forall i :: 0 <= i < |text| && IsLetter(text[i]) ==>
              IsLetter(r[i]) && (IsUpper(r[i]) <==> IsUpper(text[i])) &&
              Pos(r[i]) == 25 - Pos(text[i])
  {
    seq(|text|, i requires 0 <= i < |text| => AtbashUnit(text[i]))
  }

  lemma AtbashInvolution(text: Text)
    ensures Atbash(Atbash(text)) == text
  {
    var once := Atbash(text);
    var twice := Atbash(once);
    forall i | 0 <= i < |text|
      ensures twice[i] == text[i]
    {
      if IsLetter(text[i]) {
        assert CaseBase(twice[i]) == CaseBase(text[i]);
      }
    }
  }

  lemma AtbashExample()
    ensures Atbash(Literal("Hello")) == Literal("Svool")
  {
  }

  // ---------------------------------------------------------------- reverseText

  /** reverseText(text): `split("")` cuts the text into code units, which are put in the
      opposite order. */
  function ReverseText(text: Text): (r: Text)
    ensures |r| == |text|
    ensures forall i :: 0 <= i < |text| ==> r[i] == text[|text| - 1 - i]
    decreases |text|
  {
    if text == [] then [] else [text[|text| - 1]] + ReverseText(text[..|text| - 1])
  }

  lemma ReverseInvolution(text: Text)
    ensures ReverseText(ReverseText(text)) == text
  {
  }

  lemma ReverseExample()
    ensures ReverseText(Literal("Hello")) == Literal("olleH")
  {
  }

  // ---------------------------------------------------------------- xorCipher

  predicate IsHighSurrogate(c: CodeUnit) { 0xD800 <= c <= 0xDBFF }
  predicate IsLowSurrogate(c: CodeUnit) { 0xDC00 <= c <= 0xDFFF }

  /** Whether a surrogate pair starts at position i, i.e. the code point there takes two units. */
  predicate PairAt(t: Text, i: int)
    requires 0 <= i < |t|
  {
    i + 1 < |t| && IsHighSurrogate(t[i]) && IsLowSurrogate(t[i + 1])
  }

  /** True when every code point of the text is a single code unit. */
  predicate NoSurrogatePairs(t: Text)
  {
    forall i :: 0 <= i < |t| ==> !PairAt(t, i)
  }

  /** The key value XORed in: `key.charCodeAt(0)`; for an empty key that is NaN, which `^` reads as 0. */
  function XorKey(key: Text): (k: CodeUnit)
    ensures |key| > 0 ==> k == key[0]
    ensures |key| == 0 ==> k == 0
  {
    if |key| == 0 then 0 else key[0]
  }

  function Pow2(n: nat): (p: nat)
    ensures p >= 1
  {
    if n == 0 then 1 else 2 * Pow2(n - 1)
  }

  /** Bit i of a non-negative integer, counting from the least significant bit. */
  function Bit(x: int, i: nat): int
    requires 0 <= x
    decreases i
  {
    if i == 0 then x % 2 else Bit(x / 2, i - 1)
  }

  /** Bit i is the last binary digit of x divided by 2^i. */
  lemma {:induction false} BitIsDigit(x: int, i: nat)
    requires 0 <= x
    ensures Bit(x, i) == (x / Pow2(i)) % 2
    decreases i
  {
    if i > 0 {
      BitIsDigit(x / 2, i - 1);
      HalveThenDivide(x, Pow2(i - 1));
    }
  }

  /** Dividing by 2 and then by p is dividing by 2p. */
  lemma HalveThenDivide(x: int, p: int)
    requires 0 <= x && 1 <= p
    ensures x / 2 / p == x / (2 * p)
  {
    var h, q := x / 2, x / 2 / p;
    var d := 2 * p;
    var rest := 2 * (h % p) + x % 2;
    assert h == p * q + h % p;
    assert x == 2 * h + x % 2;
    assert x == d * q + rest;
    DivideUnique(x, d, q, rest);
  }

  /** Division is determined by a remainder in range. */
  lemma DivideUnique(x: int, d: int, q: int, r: int)
    requires 0 < d && 0 <= r < d && x == d * q + r
    ensures x / d == q
  {
    var q', r' := x / d, x % d;
    assert d * q + r == d * q' + r';
    if q' < q {
      assert d * (q - q') == r' - r;
      AtLeastOnce(d, q - q');
    } else if q < q' {
      assert d * (q' - q) == r - r';
      AtLeastOnce(d, q' - q);
    }
  }

  lemma {:induction false} AtLeastOnce(d: nat, k: nat)
    requires 1 <= k
    ensures d * k >= d
    decreases k
  {
    if k > 1 {
      AtLeastOnce(d, k - 1);
      assert d * k == d * (k - 1) + d;
    }
  }

  /** `x ^ y` on the low `width` bits of two non-negative integers, taken one bit at a time
      (BitXorBits states the XOR bit by bit). */
  function BitXor(x: int, y: int, width: nat): (r: int)
    requires 0 <= x && 0 <= y
    ensures 0 <= r < Pow2(width)
    decreases width
  {
    if width == 0 then 0
    else (if x % 2 == y % 2 then 0 else 1) + 2 * BitXor(x / 2, y / 2, width - 1)
  }

  /** Each of the low `width` bits of `x ^ y` is 1 exactly where the bits of x and y differ. */
  lemma {:induction false} BitXorBits(x: int, y: int, width: nat)
    requires 0 <= x && 0 <= y
    ensures forall i :: 0 <= i < width ==>
              Bit(BitXor(x, y, width), i) == if Bit(x, i) == Bit(y, i) then 0 else 1
    decreases width
  {
    if width > 0 {
      var rest := BitXor(x / 2, y / 2, width - 1);
      var r := BitXor(x, y, width);
      BitXorBits(x / 2, y / 2, width - 1);
      assert r / 2 == rest;
      assert forall i :: 1 <= i < width ==> Bit(r, i) == Bit(rest, i - 1);
    }
  }

  /** `x >> n` for a non-negative integer. */
  function Shr(x: int, n: nat): int
    decreases n
  {
    if n == 0 then x else Shr(x / 2, n - 1)
  }

  /** The width of a code unit in bits. */
  const UnitBits: nat := 16

  lemma Pow2Is65536()
    ensures Pow2(UnitBits) == 0x1_0000
  {
    assert Pow2(4) == 16;
    assert Pow2(8) == 256;
    assert Pow2(12) == 4096;
  }

  /** `c.charCodeAt(0) ^ key.charCodeAt(0)`: JavaScript's `^` works on 32 bits, which for two
      16-bit operands is the XOR of their 16 bits. A zero key unit leaves c alone. */
  function XorUnit(c: CodeUnit, k: CodeUnit): (r: CodeUnit)
    ensures k == 0 ==> r == c
  {
    XorUnitSpec(c, k);
    BitXor(c as int, k as int, UnitBits) as CodeUnit
  }

  /** The facts XorUnit's contract rests on, about the 16-bit XOR of c and k. */
  lemma XorUnitSpec(c: CodeUnit, k: CodeUnit)
    ensures 0 <= BitXor(c as int, k as int, UnitBits) < 0x1_0000
    ensures k == 0 ==> BitXor(c as int, k as int, UnitBits) == c as int
  {
    Pow2Is65536();
    if k == 0 {
      BitXorZero(c as int, UnitBits);
    }
  }

  /** Bit by bit, XorUnit is `^`: each of the 16 bits of the result is 1 exactly where the bits
      of c and k differ. */
  lemma XorUnitBitwise(c: CodeUnit, k: CodeUnit)
    ensures forall i :: 0 <= i < UnitBits ==>
              UnitBit(XorUnit(c, k), i) == if UnitBit(c, i) == UnitBit(k, i) then 0 else 1
  {
    BitXorBits(c as int, k as int, UnitBits);
  }

  /** Bit i of a code unit. */
  function UnitBit(c: CodeUnit, i: nat): int
  {
    Bit(c as int, i)
  }

  /** 'A' ^ 'K' is 10: 1000001 and 1001011 differ in bits 1 and 3. */
  lemma XorUnitExample()
    ensures XorUnit(65, 75) == 10
  {
    XorBits65();
  }

  /** 'B' ^ 'K' is 9: 1000010 and 1001011 differ in bits 0 and 3. */
  lemma XorUnitExampleB()
    ensures XorUnit(66, 75) == 9
  {
    XorBits66();
  }

  /** The common top of both examples: above bit 3, 'A', 'B' and 'K' agree. */
  lemma XorBitsTop()
    ensures BitXor(8, 9, 13) == 1
  {
    BitXorZero(0, 9);
    assert BitXor(1, 1, 10) == 0;
    assert BitXor(2, 2, 11) == 0;
    assert BitXor(4, 4, 12) == 0;
  }

  lemma XorBits65()
    ensures BitXor(65, 75, UnitBits) == 10
  {
    XorBitsTop();
    assert BitXor(16, 18, 14) == 2;
    assert BitXor(32, 37, 15) == 5;
  }

  lemma XorBits66()
    ensures BitXor(66, 75, UnitBits) == 9
  {
    XorBitsTop();
    assert BitXor(16, 18, 14) == 2;
    assert BitXor(33, 37, 15) == 4;
  }

  lemma {:induction false} BitXorTwice(x: int, y: int, width: nat)
    requires 0 <= x < Pow2(width) && 0 <= y
    ensures BitXor(BitXor(x, y, width), y, width) == x
    decreases width
  {
    if width > 0 {
      BitXorTwice(x / 2, y / 2, width - 1);
    }
  }

  lemma {:induction false} BitXorZero(x: int, width: nat)
    requires 0 <= x < Pow2(width)
    ensures BitXor(x, 0, width) == x
    decreases width
  {
    if width > 0 {
      BitXorZero(x / 2, width - 1);
    }
  }

  /** XOR with a value whose bits from position n up are all zero leaves those bits of x alone. */
  lemma {:induction false} BitXorKeepsHighBits(x: int, y: int, width: nat, n: nat)
    requires 0 <= x < Pow2(width) && 0 <= y && n <= width && Shr(y, n) == 0
    ensures Shr(BitXor(x, y, width), n) == Shr(x, n)
    decreases n
  {
    if n == 0 {
      BitXorZero(x, width);
    } else {
      BitXorKeepsHighBits(x / 2, y / 2, width - 1, n - 1);
    }
  }

  lemma Shr10(x: int)
    requires 0 <= x
    ensures Shr(x, 10) == x / 1024
  {
    assert Shr(x, 10) == x / 2 / 2 / 2 / 2 / 2 / 2 / 2 / 2 / 2 / 2;
  }

  /** xorCipher(text, key). The spread `[...text]` walks code points; `charCodeAt(0)` of a
      surrogate pair gives its high half only, so each pair yields one unit. On text without
      surrogate pairs the result is the text with every unit XORed with the key's first unit. */
  function XorCipher(text: Text, key: Text): (r: Text)
    ensures |r| <= |text|
    ensures |r| == |text| <==> NoSurrogatePairs(text)
    ensures NoSurrogatePairs(text) ==>
              forall i :: 0 <= i < |text| ==> r[i] == XorUnit(text[i], XorKey(key))
    decreases |text|
  {
    if text == [] then []
    else if PairAt(text, 0) then [XorUnit(text[0], XorKey(key))] + XorCipher(text[2..], key)
    else
      NoSurrogatePairsTail(text);
      [XorUnit(text[0], XorKey(key))] + XorCipher(text[1..], key)
  }

  /** Without a pair at the front, the text has surrogate pairs exactly when its tail has. */
  lemma NoSurrogatePairsTail(text: Text)
    requires |text| > 0 && !PairAt(text, 0)
    ensures NoSurrogatePairs(text) <==> NoSurrogatePairs(text[1..])
  {
    if NoSurrogatePairs(text[1..]) {
      forall i | 0 <= i < |text| ensures !PairAt(text, i) {
        if i > 0 {
          assert !PairAt(text[1..], i - 1);
        }
      }
    }
    if NoSurrogatePairs(text) {
      forall i | 0 <= i < |text[1..]| ensures !PairAt(text[1..], i) {
        assert !PairAt(text, i + 1);
      }
    }
  }

  lemma XorUnitInvolution(c: CodeUnit, k: CodeUnit)
    ensures XorUnit(XorUnit(c, k), k) == c
  {
    Pow2Is65536();
    BitXorTwice(c as int, k as int, UnitBits);
  }

  /** A key unit below 0x400 changes only the low ten bits, so it keeps high surrogates,
      low surrogates and all other units in their own class. */
  lemma XorUnitKeepsClass(c: CodeUnit, k: CodeUnit)
    requires k < 0x400
    ensures IsHighSurrogate(XorUnit(c, k)) <==> IsHighSurrogate(c)
    ensures IsLowSurrogate(XorUnit(c, k)) <==> IsLowSurrogate(c)
  {
    XorKeepsTopSixBits(c as int, k as int);
    SameBlockSameClass(c, XorUnit(c, k));
  }

  /** Units in the same block of 1024 are in the same surrogate class. */
  lemma SameBlockSameClass(c: CodeUnit, d: CodeUnit)
    requires c as int / 1024 == d as int / 1024
    ensures IsHighSurrogate(c) <==> IsHighSurrogate(d)
    ensures IsLowSurrogate(c) <==> IsLowSurrogate(d)
  {
    assert IsHighSurrogate(c) <==> c as int / 1024 == 54;
    assert IsHighSurrogate(d) <==> d as int / 1024 == 54;
    assert IsLowSurrogate(c) <==> c as int / 1024 == 55;
    assert IsLowSurrogate(d) <==> d as int / 1024 == 55;
  }

  /** The arithmetic behind XorUnitKeepsClass. */
  lemma XorKeepsTopSixBits(x: int, y: int)
    requires 0 <= x < 0x1_0000 && 0 <= y < 0x400
    ensures BitXor(x, y, UnitBits) / 1024 == x / 1024
  {
    Pow2Is65536();
    Shr10(y);
    BitXorKeepsHighBits(x, y, UnitBits, 10);
    Shr10(x);
    Shr10(BitXor(x, y, UnitBits));
  }

  /** "AB" under the key "K" becomes U+000A U+0009 ('A' ^ 'K' and 'B' ^ 'K'). */
  lemma XorExample()
    ensures XorCipher(Literal("AB"), Literal("K")) == [10, 9]
  {
    var t: Text := [65, 66];
    XorExampleLiterals();
    assert !PairAt(t, 0) && !PairAt(t, 1);
    assert NoSurrogatePairs(t);
    var r := XorCipher(t, [75]);
    assert XorKey([75]) == 75;
    XorUnitExample();
    XorUnitExampleB();
    assert r[0] == 10 && r[1] == 9;
  }

  lemma XorExampleLiterals()
    ensures Literal("AB") == [65, 66] && Literal("K") == [75]
  {
  }

  /** XOR twice with the same key gives the text back, as long as neither the text nor its
      encryption holds a surrogate pair that the code-point walk would collapse. */
  lemma XorInvolution(text: Text, key: Text)
    requires NoSurrogatePairs(text) && NoSurrogatePairs(XorCipher(text, key))
    ensures XorCipher(XorCipher(text, key), key) == text
  {
    var once := XorCipher(text, key);
    var twice := XorCipher(once, key);
    forall i | 0 <= i < |text|
      ensures twice[i] == text[i]
    {
      XorUnitInvolution(text[i], XorKey(key));
    }
  }

  /** With a key whose first unit is below 0x400 (such as "K") no surrogate pair appears. */
  lemma XorKeepsNoSurrogatePairs(text: Text, key: Text)
    requires NoSurrogatePairs(text) && XorKey(key) < 0x400
    ensures NoSurrogatePairs(XorCipher(text, key))
  {
    var r := XorCipher(text, key);
    forall i | 0 <= i < |r|
      ensures !PairAt(r, i)
    {
      XorUnitKeepsClass(text[i], XorKey(key));
      if i + 1 < |r| {
        XorUnitKeepsClass(text[i + 1], XorKey(key));
        assert !PairAt(text, i);
      }
    }
  }

  /** Only the key's first code unit matters. */
  lemma {:induction false} XorFirstKeyUnitOnly(text: Text, key1: Text, key2: Text)
    requires XorKey(key1) == XorKey(key2)
    ensures XorCipher(text, key1) == XorCipher(text, key2)
    decreases |text|
  {
    if text == [] {
    } else if PairAt(text, 0) {
      XorFirstKeyUnitOnly(text[2..], key1, key2);
    } else {
      XorFirstKeyUnitOnly(text[1..], key1, key2);
    }
  }
}
