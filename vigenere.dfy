/** vigenereEncrypt and vigenereDecrypt of script.js: a loop over the text that shifts each
    ASCII letter by the key letter at a counter `j`, which moves on only at letters. */
module Vigenere {
  import opened Utf16

  /** A key that makes the cipher a shift cipher per letter, as the loop sees it after
      `toUpperCase`: non-empty, and every unit 'A' .. 'Z' (shift 0 .. 25) or '[' (shift 26,
      which moves no letter). */
  predicate ShiftKey(key: Text)
  {
    |key| > 0 && forall i :: 0 <= i < |key| ==> 65 <= key[i] <= 91
  }

  /** `key.charCodeAt(j % key.length) - 65`. */
  function KeyShift(key: Text, j: nat): (k: int)
    requires |key| > 0
    ensures -65 <= k < 0x1_0000 - 65
    ensures ShiftKey(key) ==> 0 <= k <= 26
  {
    key[j % |key|] as int - 65
  }

  /** The unit vigenereEncrypt appends for letter c at key counter j. With an empty key,
      `j % 0` is NaN, the whole expression is NaN and `String.fromCharCode(NaN)` is U+0000. */
  function EncipherUnit(c: CodeUnit, key: Text, j: nat): (r: CodeUnit)
    requires IsLetter(c)
    ensures |key| == 0 ==> r == 0
    ensures |key| > 0 && KeyShift(key, j) >= 0 ==>
              IsLetter(r) && CaseBase(r) == CaseBase(c) && Pos(r) == (Pos(c) + KeyShift(key, j)) % 26
  {
    if |key| == 0 then 0
    else (JsRem(Pos(c) + KeyShift(key, j), 26) + CaseBase(c)) as CodeUnit
  }

  /** The unit vigenereDecrypt appends: the shift is subtracted and 26 added before `%`. */
  function DecipherUnit(c: CodeUnit, key: Text, j: nat): (r: CodeUnit)
    requires IsLetter(c)
    ensures |key| == 0 ==> r == 0
    ensures |key| > 0 && KeyShift(key, j) <= 26 ==>
              IsLetter(r) && CaseBase(r) == CaseBase(c) && Pos(r) == (Pos(c) - KeyShift(key, j)) % 26
  {
    if |key| == 0 then 0
    else (JsRem(Pos(c) - KeyShift(key, j) + 26, 26) + CaseBase(c)) as CodeUnit
  }

  /** What the encryption loop appends for text, given the (upper-cased) key and the key
      counter at the start. */
  function Enciphered(text: Text, key: Text, j: nat): (r: Text)
    ensures |r| == |text|
    decreases |text|
  {
    if text == [] then []
    else if IsLetter(text[0]) then [EncipherUnit(text[0], key, j)] + Enciphered(text[1..], key, j + 1)
    else [text[0]] + Enciphered(text[1..], key, j)
  }

  /** What the decryption loop appends. */
  function Deciphered(text: Text, key: Text, j: nat): (r: Text)
    ensures |r| == |text|
    decreases |text|
  {
    if text == [] then []
    else if IsLetter(text[0]) then [DecipherUnit(text[0], key, j)] + Deciphered(text[1..], key, j + 1)
    else [text[0]] + Deciphered(text[1..], key, j)
  }

  /** Encryption leaves every non-letter where it is, and under a shift key turns every
      letter into a letter of the same case. */
  lemma {:induction false} EncipheredShape(text: Text, key: Text, j: nat)
    ensures forall i :: 0 <= i < |text| && !IsLetter(text[i]) ==> Enciphered(text, key, j)[i] == text[i]
    ensures ShiftKey(key) ==> forall i :: 0 <= i < |text| && IsLetter(text[i]) ==>
              IsLetter(Enciphered(text, key, j)[i]) &&
              CaseBase(Enciphered(text, key, j)[i]) == CaseBase(text[i])
    decreases |text|
  {
    if text != [] {
      var r := Enciphered(text, key, j);
      var next := if IsLetter(text[0]) then j + 1 else j;
      EncipheredShape(text[1..], key, next);
      assert r[1..] == Enciphered(text[1..], key, next);
      if IsLetter(text[0]) && ShiftKey(key) {
        UnitShifts(text[0], key, j);
      }
      forall i | 1 <= i < |text|
        ensures r[i] == Enciphered(text[1..], key, next)[i - 1] && text[i] == text[1..][i - 1]
      {
      }
    }
  }

  /** Decryption has the same shape guarantees. */
  lemma {:induction false} DecipheredShape(text: Text, key: Text, j: nat)
    ensures forall i :: 0 <= i < |text| && !IsLetter(text[i]) ==> Deciphered(text, key, j)[i] == text[i]
    ensures ShiftKey(key) ==> forall i :: 0 <= i < |text| && IsLetter(text[i]) ==>
              IsLetter(Deciphered(text, key, j)[i]) &&
              CaseBase(Deciphered(text, key, j)[i]) == CaseBase(text[i])
    decreases |text|
  {
    if text != [] {
      var r := Deciphered(text, key, j);
      var next := if IsLetter(text[0]) then j + 1 else j;
      DecipheredShape(text[1..], key, next);
      assert r[1..] == Deciphered(text[1..], key, next);
      if IsLetter(text[0]) && ShiftKey(key) {
        UnitShifts(text[0], key, j);
      }
      forall i | 1 <= i < |text|
        ensures r[i] == Deciphered(text[1..], key, next)[i - 1] && text[i] == text[1..][i - 1]
      {
      }
    }
  }

  /** The number of ASCII letters in s: how far the key counter has moved after s. */
  function LetterCount(s: Text): (n: nat)
    ensures n <= |s|
    ensures n == 0 <==> forall i :: 0 <= i < |s| ==> !IsLetter(s[i])
  {
    if s == [] then 0 else (if IsLetter(s[0]) then 1 else 0) + LetterCount(s[1..])
  }

  /** vigenereEncrypt(text, key). */
  method VigenereEncrypt(text: Text, key: Text) returns (result: Text)
    requires IsAscii(key)
    ensures result == Enciphered(text, UpperCase(key), 0)
  {
    var k := UpperCase(key);
    result := [];
    var j: nat := 0;
    for i := 0 to |text|
      invariant result + Enciphered(text[i..], k, j) == Enciphered(text, k, 0)
    {
      var c := text[i];
      assert text[i..] == [c] + text[i + 1..];
      if IsLetter(c) {
        assert Enciphered(text[i..], k, j) == [EncipherUnit(c, k, j)] + Enciphered(text[i + 1..], k, j + 1);
        result := result + [EncipherUnit(c, k, j)];
        j := j + 1;
      } else {
        result := result + [c];
      }
    }
  }

  /** vigenereDecrypt(text, key). */
  method VigenereDecrypt(text: Text, key: Text) returns (result: Text)
    requires IsAscii(key)
    ensures result == Deciphered(text, UpperCase(key), 0)
  {
    var k := UpperCase(key);
    result := [];
    var j: nat := 0;
    for i := 0 to |text|
      invariant result + Deciphered(text[i..], k, j) == Deciphered(text, k, 0)
    {
      var c := text[i];
      assert text[i..] == [c] + text[i + 1..];
      if IsLetter(c) {
        assert Deciphered(text[i..], k, j) == [DecipherUnit(c, k, j)] + Deciphered(text[i + 1..], k, j + 1);
        result := result + [DecipherUnit(c, k, j)];
        j := j + 1;
      } else {
        result := result + [c];
      }
    }
  }

  /** Under a shift key, one letter is moved forward by the key letter on encryption and back
      by it on decryption, modulo 26, within its case. */
  lemma UnitShifts(c: CodeUnit, key: Text, j: nat)
    requires IsLetter(c) && ShiftKey(key)
    ensures IsLetter(EncipherUnit(c, key, j)) && CaseBase(EncipherUnit(c, key, j)) == CaseBase(c)
    ensures Pos(EncipherUnit(c, key, j)) == (Pos(c) + KeyShift(key, j)) % 26
    ensures IsLetter(DecipherUnit(c, key, j)) && CaseBase(DecipherUnit(c, key, j)) == CaseBase(c)
    ensures Pos(DecipherUnit(c, key, j)) == (Pos(c) - KeyShift(key, j)) % 26
  {
    assert 65 <= key[j % |key|] <= 91;
  }

  lemma UnitRoundTrip(c: CodeUnit, key: Text, j: nat)
    requires IsLetter(c) && ShiftKey(key)
    ensures DecipherUnit(EncipherUnit(c, key, j), key, j) == c
  {
    var e := EncipherUnit(c, key, j);
    UnitShifts(c, key, j);
    var k := KeyShift(key, j);
    ShiftBack(Pos(c), k);
    assert Pos(e) - k + 26 >= 0;
  }

  /** Moving forward by k and then back by k (adding 26 first) lands on the starting place. */
  lemma ShiftBack(p: int, k: int)
    requires 0 <= p < 26 && 0 <= k <= 26
    ensures ((p + k) % 26 - k + 26) % 26 == p
  {
    if p + k < 26 {
      assert (p + k) % 26 == p + k;
    } else {
      assert (p + k) % 26 == p + k - 26;
    }
  }

  /** Decryption with the same shift key and starting counter undoes encryption. */
  lemma {:induction false} RoundTripFrom(text: Text, key: Text, j: nat)
    requires ShiftKey(key)
    ensures Deciphered(Enciphered(text, key, j), key, j) == text
    decreases |text|
  {
    if text != [] {
      var e := Enciphered(text, key, j);
      if IsLetter(text[0]) {
        UnitRoundTrip(text[0], key, j);
        assert e == [EncipherUnit(text[0], key, j)] + Enciphered(text[1..], key, j + 1);
        assert e[1..] == Enciphered(text[1..], key, j + 1);
        RoundTripFrom(text[1..], key, j + 1);
      } else {
        assert e[1..] == Enciphered(text[1..], key, j);
        RoundTripFrom(text[1..], key, j);
      }
    }
  }

  /** For every text and every non-empty key of ASCII letters (of either case) and '[',
      vigenereDecrypt(vigenereEncrypt(text, key), key) gives the text back. */
  lemma VigenereRoundTrip(text: Text, key: Text)
    requires |key| > 0 && forall i :: 0 <= i < |key| ==> IsLetter(key[i]) || key[i] == 91
    ensures IsAscii(key)
    ensures Deciphered(Enciphered(text, UpperCase(key), 0), UpperCase(key), 0) == text
  {
    RoundTripFrom(text, UpperCase(key), 0);
  }

  /** A key unit below 'A' gives a negative shift: "A" under the key "@" becomes "@", which
      decryption leaves alone, so the letter is lost. */
  lemma NegativeShiftLosesLetter()
    ensures Enciphered(Literal("A"), Literal("@"), 0) == Literal("@")
    ensures Deciphered(Literal("@"), Literal("@"), 0) == Literal("@")
  {
  }

  /** The index rule: the letter at position i is enciphered with the key counter advanced
      by the number of letters before it, non-letters before it not counting. */
  lemma {:induction false} EncipheredAt(text: Text, key: Text, j: nat, i: nat)
    requires i < |text| && IsLetter(text[i])
    ensures Enciphered(text, key, j)[i] == EncipherUnit(text[i], key, j + LetterCount(text[..i]))
    decreases i
  {
    if i > 0 {
      var step := if IsLetter(text[0]) then 1 else 0;
      assert Enciphered(text, key, j)[i] == Enciphered(text[1..], key, j + step)[i - 1];
      EncipheredAt(text[1..], key, j + step, i - 1);
      assert text[..i][1..] == text[1..][..i - 1];
    }
  }

  lemma {:induction false} DecipheredAt(text: Text, key: Text, j: nat, i: nat)
    requires i < |text| && IsLetter(text[i])
    ensures Deciphered(text, key, j)[i] == DecipherUnit(text[i], key, j + LetterCount(text[..i]))
    decreases i
  {
    if i > 0 {
      var step := if IsLetter(text[0]) then 1 else 0;
      assert Deciphered(text, key, j)[i] == Deciphered(text[1..], key, j + step)[i - 1];
      DecipheredAt(text[1..], key, j + step, i - 1);
      assert text[..i][1..] == text[1..][..i - 1];
    }
  }

  /** Encrypting a concatenation is encrypting the parts, the second with the key counter
      moved on by the letters of the first. */
  lemma {:induction false} EncipheredAppend(a: Text, b: Text, key: Text, j: nat)
    ensures Enciphered(a + b, key, j) == Enciphered(a, key, j) + Enciphered(b, key, j + LetterCount(a))
    decreases |a|
  {
    if a == [] {
      assert a + b == b;
    } else {
      var step := if IsLetter(a[0]) then 1 else 0;
      var head := Enciphered(a, key, j)[..1];
      assert (a + b)[0] == a[0] && (a + b)[1..] == a[1..] + b;
      assert Enciphered(a, key, j) == head + Enciphered(a[1..], key, j + step);
      assert Enciphered(a + b, key, j) == head + Enciphered(a[1..] + b, key, j + step);
      EncipheredAppend(a[1..], b, key, j + step);
    }
  }

  lemma {:induction false} LetterCountAppend(a: Text, b: Text)
    ensures LetterCount(a + b) == LetterCount(a) + LetterCount(b)
    decreases |a|
  {
    if a == [] {
      assert a + b == b;
    } else {
      assert (a + b)[0] == a[0] && (a + b)[1..] == a[1..] + b;
      LetterCountAppend(a[1..], b);
    }
  }

  // ---------------------------------------------------------------- worked example

  /** The textbook Vigenère example: ATTACKATDAWN under the key LEMON. */
  lemma VigenereExample()
    ensures Enciphered(Literal("ATTACKATDAWN"), UpperCase(Literal("LEMON")), 0)
         == Literal("LXFOPVEFRNHR")
  {
    ExamplePlain();
    ExampleKey();
    ExampleCipher();
    ExampleCodes();
  }

  lemma ExampleCodes()
    ensures Enciphered([65, 84, 84, 65] + [67, 75, 65, 84] + [68, 65, 87, 78], [76, 69, 77, 79, 78], 0)
         == [76, 88, 70, 79] + [80, 86, 69, 70] + [82, 78, 72, 82]
  {
    ExampleQuarters();
    EncipherThirds([65, 84, 84, 65], [67, 75, 65, 84], [68, 65, 87, 78], [76, 69, 77, 79, 78],
                   [76, 88, 70, 79], [80, 86, 69, 70], [82, 78, 72, 82]);
  }

  /** Gluing three separately enciphered pieces. */
  lemma EncipherThirds(p1: Text, p2: Text, p3: Text, key: Text, c1: Text, c2: Text, c3: Text)
    requires Enciphered(p1, key, 0) == c1
    requires Enciphered(p2, key, LetterCount(p1)) == c2
    requires Enciphered(p3, key, LetterCount(p1) + LetterCount(p2)) == c3
    ensures Enciphered(p1 + p2 + p3, key, 0) == c1 + c2 + c3
  {
    EncipheredAppend(p1, p2, key, 0);
    LetterCountAppend(p1, p2);
    EncipheredAppend(p1 + p2, p3, key, 0);
  }

  /** ATTA CKAT DAWN, with the key counter at 0, 4 and 8. */
  lemma ExampleQuarters()
    ensures Enciphered([65, 84, 84, 65], [76, 69, 77, 79, 78], 0) == [76, 88, 70, 79]
    ensures Enciphered([67, 75, 65, 84], [76, 69, 77, 79, 78], 4) == [80, 86, 69, 70]
    ensures Enciphered([68, 65, 87, 78], [76, 69, 77, 79, 78], 8) == [82, 78, 72, 82]
    ensures LetterCount([65, 84, 84, 65]) == 4 && LetterCount([67, 75, 65, 84]) == 4
  {
    ExampleAtta();
    ExampleCkat();
    ExampleDawn();
  }

  lemma ExampleAtta()
    ensures Enciphered([65, 84, 84, 65], [76, 69, 77, 79, 78], 0) == [76, 88, 70, 79]
  {
  }

  lemma ExampleCkat()
    ensures Enciphered([67, 75, 65, 84], [76, 69, 77, 79, 78], 4) == [80, 86, 69, 70]
  {
  }

  lemma ExampleDawn()
    ensures Enciphered([68, 65, 87, 78], [76, 69, 77, 79, 78], 8) == [82, 78, 72, 82]
  {
  }

  lemma ExamplePlain()
    ensures Literal("ATTACKATDAWN") == [65, 84, 84, 65] + [67, 75, 65, 84] + [68, 65, 87, 78]
  {
  }

  lemma ExampleKey()
    ensures UpperCase(Literal("LEMON")) == [76, 69, 77, 79, 78]
  {
  }

  lemma ExampleCipher()
    ensures Literal("LXFOPVEFRNHR") == [76, 88, 70, 79] + [80, 86, 69, 70] + [82, 78, 72, 82]
  {
  }
}
