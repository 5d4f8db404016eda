/** generatePlayfairMatrix of script.js and the text clean-up that Playfair applies to both the
    key and the plaintext: the 5x5 square is kept as a sequence of 25 letters, row by row. */
module PlayfairMatrix {
  import opened Utf16

  /** The letters the square holds: A .. Z without J. */
  predicate IsSquareLetter(c: CodeUnit) { IsUpper(c) && c != 74 }

  predicate SquareText(t: Text) { forall i :: 0 <= i < |t| ==> IsSquareLetter(t[i]) }

  /** The literal "ABCDEFGHIKLMNOPQRSTUVWXYZ" appended to the key: A .. I, then K .. Z. */
  function SquareAlphabet(): (r: Text)
    ensures |r| == 25
  {
    seq(25, i requires 0 <= i < 25 => (if i < 9 then 65 + i else 66 + i) as CodeUnit)
  }

  /** SquareAlphabet is the alphabet literal of generatePlayfairMatrix, letter for letter. */
  lemma SquareAlphabetLiteral()
    ensures SquareAlphabet() == Literal("ABCDEFGHIKLMNOPQRSTUVWXYZ")
  {
    SquareAlphabetCodes();
    AlphabetLiteralCodes();
  }

  lemma SquareAlphabetCodes()
    ensures SquareAlphabet() == [65, 66, 67, 68, 69, 70, 71, 72, 73] + [75, 76, 77, 78, 79, 80, 81, 82] + [83, 84, 85, 86, 87, 88, 89, 90]
  {
  }

  lemma AlphabetLiteralCodes()
    ensures Literal("ABCDEFGHIKLMNOPQRSTUVWXYZ") == [65, 66, 67, 68, 69, 70, 71, 72, 73] + [75, 76, 77, 78, 79, 80, 81, 82] + [83, 84, 85, 86, 87, 88, 89, 90]
  {
  }

  /** `replace(/[^A-Z]/g, "")`: drops everything that is not an upper-case ASCII letter. */
  function UpperOnly(t: Text): (r: Text)
    ensures |r| <= |t|
    ensures forall i :: 0 <= i < |r| ==> IsUpper(r[i])
  {
    if t == [] then []
    else if IsUpper(t[0]) then [t[0]] + UpperOnly(t[1..])
    else UpperOnly(t[1..])
  }

  /** `replace(/J/g, "I")`. */
  function JToI(t: Text): (r: Text)
    ensures |r| == |t|
    ensures forall i :: 0 <= i < |t| ==> r[i] == (if t[i] == 74 then 73 else t[i])
  {
    seq(|t|, i requires 0 <= i < |t| => if t[i] == 74 then 73 else t[i])
  }

  /** `toUpperCase().replace(/[^A-Z]/g, "").replace(/J/g, "I")`, for ASCII text. */
  function Normalise(t: Text): (r: Text)
    requires IsAscii(t)
    ensures SquareText(r)
  {
    JToI(UpperOnly(UpperCase(t)))
  }

  /** A text of square letters is already normal: cleaning it up changes nothing. */
  lemma NormaliseSquareText(t: Text)
    requires SquareText(t)
    ensures IsAscii(t) && Normalise(t) == t
  {
    assert UpperCase(t) == t;
    UpperOnlyUpperText(t);
  }

  lemma {:induction false} UpperOnlyUpperText(t: Text)
    requires forall i :: 0 <= i < |t| ==> IsUpper(t[i])
    ensures UpperOnly(t) == t
  {
    if t != [] {
      UpperOnlyUpperText(t[1..]);
    }
  }

  /** The letter filter works unit by unit: it keeps a unit exactly when it is upper case, and
      a concatenation is filtered part by part, so every kept unit stays in its order. */
  lemma UpperOnlyUnit(c: CodeUnit)
    ensures UpperOnly([c]) == (if IsUpper(c) then [c] else [])
  {
    assert [c][1..] == [];
  }

  lemma {:induction false} UpperOnlyAppend(a: Text, b: Text)
    ensures UpperOnly(a + b) == UpperOnly(a) + UpperOnly(b)
    decreases |a|
  {
    if a == [] {
      assert a + b == b;
    } else {
      assert (a + b)[0] == a[0] && (a + b)[1..] == a[1..] + b;
      UpperOnlyAppend(a[1..], b);
    }
  }

  /** The clean-up, unit by unit: a letter becomes its upper-case form (J becoming I), anything
      else is dropped; and a concatenation is cleaned part by part. With `Normalise([]) == []`
      these determine the clean-up on every ASCII text. */
  lemma NormaliseUnit(c: CodeUnit)
    requires c < 128
    ensures IsAscii([c])
    ensures Normalise([c]) == (if !IsLetter(c) then [] else if ToUpper(c) == 74 then [73] else [ToUpper(c)])
  {
    assert UpperCase([c]) == [ToUpper(c)];
    UpperOnlyUnit(ToUpper(c));
  }

  lemma NormaliseAppend(a: Text, b: Text)
    requires IsAscii(a) && IsAscii(b)
    ensures IsAscii(a + b)
    ensures Normalise(a + b) == Normalise(a) + Normalise(b)
  {
    assert UpperCase(a + b) == UpperCase(a) + UpperCase(b);
    UpperOnlyAppend(UpperCase(a), UpperCase(b));
  }

  /** "Hide the gold!" is cleaned to HIDETHEGOLD. */
  lemma NormaliseExample()
    ensures Normalise(Literal("Hide the gold!")) == Literal("HIDETHEGOLD")
  {
    var front, middle, back: Text := [72, 105, 100, 101], [32, 116, 104, 101], [32, 103, 111, 108, 100, 33];
    assert Literal("Hide the gold!") == front + middle + back;
    assert Literal("HIDETHEGOLD") == [72, 73, 68, 69] + [84, 72, 69] + [71, 79, 76, 68];
    NormaliseAppend(front, middle);
    NormaliseAppend(front + middle, back);
    NormaliseHide();
    NormaliseThe();
    NormaliseGold();
  }

  lemma NormaliseHide()
    ensures Normalise([72, 105, 100, 101]) == [72, 73, 68, 69]
  {
  }

  lemma NormaliseThe()
    ensures Normalise([32, 116, 104, 101]) == [84, 72, 69]
  {
  }

  lemma NormaliseGold()
    ensures Normalise([32, 103, 111, 108, 100, 33]) == [71, 79, 76, 68]
  {
    var p, q: Text := [32, 103, 111], [108, 100, 33];
    assert p + q == [32, 103, 111, 108, 100, 33];
    NormaliseAppend(p, q);
    assert Normalise(p) == [71, 79];
    assert Normalise(q) == [76, 68];
  }

  predicate Distinct(s: Text)
  {
    forall i, j :: 0 <= i < j < |s| ==> s[i] != s[j]
  }

  /** What the loop with the `seen` dictionary pushes: every unit of s at its first occurrence,
      in order. */
  function FirstOccurrences(s: Text): (r: Text)
    ensures |r| <= |s|
    ensures s != [] ==> r != [] && r[0] == s[0]
  {
    if s == [] then []
    else
      var d := FirstOccurrences(s[..|s| - 1]);
      if s[|s| - 1] in d then d else d + [s[|s| - 1]]
  }

  /** The de-duplicated sequence holds the same units as s, each once. */
  lemma {:induction false} FirstOccurrencesElements(s: Text)
    ensures forall x :: x in FirstOccurrences(s) <==> x in s
    ensures Distinct(FirstOccurrences(s))
    decreases |s|
  {
    if s != [] {
      var init := s[..|s| - 1];
      assert s == init + [s[|s| - 1]];
      FirstOccurrencesElements(init);
    }
  }

  /** The de-duplicated prefix ends the same whatever is appended: the key's letters come
      first, in order of first appearance. */
  lemma {:induction false} FirstOccurrencesPrefix(a: Text, b: Text)
    ensures FirstOccurrences(a) <= FirstOccurrences(a + b)
    decreases |b|
  {
    if b == [] {
      assert a + b == a;
    } else {
      var b' := b[..|b| - 1];
      FirstOccurrencesPrefix(a, b');
      assert (a + b)[..|a + b| - 1] == a + b';
    }
  }

  /** The units of s that do not occur in a, in their order in s. */
  function Omitting(s: Text, a: Text): Text
  {
    if s == [] then [] else Omitting(s[..|s| - 1], a) + (if s[|s| - 1] in a then [] else [s[|s| - 1]])
  }

  lemma {:induction false} OmittingElements(s: Text, a: Text)
    ensures forall x :: x in Omitting(s, a) <==> x in s && x !in a
    decreases |s|
  {
    if s != [] {
      var init := s[..|s| - 1];
      assert s == init + [s[|s| - 1]];
      OmittingElements(init, a);
    }
  }

  /** Omitting units keeps a sequence without repeats free of them. */
  lemma {:induction false} OmittingDistinct(s: Text, a: Text)
    requires Distinct(s)
    ensures Distinct(Omitting(s, a))
    decreases |s|
  {
    if s != [] {
      var init := s[..|s| - 1];
      assert s == init + [s[|s| - 1]];
      OmittingDistinct(init, a);
      OmittingElements(init, a);
    }
  }

  /** A sequence without repeats is its own de-duplication. */
  lemma {:induction false} FirstOccurrencesOfDistinct(s: Text)
    requires Distinct(s)
    ensures FirstOccurrences(s) == s
    decreases |s|
  {
    if s != [] {
      var init := s[..|s| - 1];
      assert s == init + [s[|s| - 1]];
      FirstOccurrencesOfDistinct(init);
    }
  }

  /** De-duplicating a + b gives the de-duplicated a, then the de-duplicated units of b that
      are not in a. */
  lemma {:induction false} FirstOccurrencesAppend(a: Text, b: Text)
    ensures FirstOccurrences(a + b) == FirstOccurrences(a) + FirstOccurrences(Omitting(b, a))
    decreases |b|
  {
    if b == [] {
      assert a + b == a;
    } else {
      var b', x := b[..|b| - 1], b[|b| - 1];
      assert b == b' + [x] && a + b == (a + b') + [x];
      FirstOccurrencesAppend(a, b');
      FirstOccurrencesStep(a + b', x);
      OmittingStep(b', x, a);
      FirstOccurrencesElements(a);
      var fa, w', e := FirstOccurrences(a), Omitting(b', a), FirstOccurrences(Omitting(b', a));
      if x in a {
        assert x in fa + e;
        assert Omitting(b, a) == w' + [] == w';
      } else {
        assert Omitting(b, a) == w' + [x];
        FirstOccurrencesStep(w', x);
        FreshUnitGlue(fa, e, x);
      }
    }
  }

  lemma FreshUnitGlue(fa: Text, e: Text, x: CodeUnit)
    requires x !in fa
    ensures (if x in fa + e then fa + e else fa + e + [x]) == fa + (if x in e then e else e + [x])
  {
    assert x in fa + e <==> x in e;
    assert fa + (e + [x]) == fa + e + [x];
  }

  lemma FirstOccurrencesStep(s: Text, x: CodeUnit)
    ensures FirstOccurrences(s + [x]) ==
              if x in FirstOccurrences(s) then FirstOccurrences(s) else FirstOccurrences(s) + [x]
  {
    assert (s + [x])[..|s|] == s;
  }

  lemma OmittingStep(s: Text, x: CodeUnit, a: Text)
    ensures Omitting(s + [x], a) == Omitting(s, a) + (if x in a then [] else [x])
  {
    assert (s + [x])[..|s|] == s;
  }

  lemma {:induction false} OmittingAppend(s: Text, t: Text, a: Text)
    ensures Omitting(s + t, a) == Omitting(s, a) + Omitting(t, a)
    decreases |t|
  {
    if t == [] {
      assert s + t == s;
    } else {
      var t', x := t[..|t| - 1], t[|t| - 1];
      assert t == t' + [x] && s + t == (s + t') + [x];
      OmittingAppend(s, t', a);
      OmittingStep(s + t', x, a);
      OmittingStep(t', x, a);
    }
  }

  /** The elements of a sequence without repeats number as many as its length. */
  lemma {:induction false} DistinctCard(s: Text)
    requires Distinct(s)
    ensures |set x | x in s| == |s|
    decreases |s|
  {
    if s != [] {
      var init := s[..|s| - 1];
      var c := s[|s| - 1];
      assert s == init + [c];
      DistinctCard(init);
      assert (set x | x in s) == (set x | x in init) + {c};
    }
  }

  /** A Playfair square: 25 distinct units that are exactly the square letters. */
  predicate ValidMatrix(m: Text)
  {
    |m| == 25 && Distinct(m) && forall x :: x in m <==> IsSquareLetter(x)
  }

  lemma SquareAlphabetLetters()
    ensures Distinct(SquareAlphabet())
    ensures forall x :: x in SquareAlphabet() <==> IsSquareLetter(x)
  {
    var sa := SquareAlphabet();
    forall x | IsSquareLetter(x)
      ensures x in sa
    {
      var k := if x < 74 then x as int - 65 else x as int - 66;
      assert sa[k] == x;
    }
  }

  /** The square generatePlayfairMatrix builds for key: the key's letters in order of first
      occurrence, then the other letters of the J-less alphabet in alphabetical order. */
  function MatrixFor(key: Text): (m: Text)
    requires IsAscii(key)
    ensures m == FirstOccurrences(Normalise(key)) + Omitting(SquareAlphabet(), Normalise(key))
  {
    var n, sa := Normalise(key), SquareAlphabet();
    FirstOccurrencesAppend(n, sa);
    SquareAlphabetLetters();
    OmittingDistinct(sa, n);
    FirstOccurrencesOfDistinct(Omitting(sa, n));
    FirstOccurrences(n + sa)
  }

  /** Every key gives a valid square, and it starts with the key's distinct letters. */
  lemma MatrixForValid(key: Text)
    requires IsAscii(key)
    ensures ValidMatrix(MatrixFor(key))
    ensures FirstOccurrences(Normalise(key)) <= MatrixFor(key)
  {
    var n := Normalise(key);
    var sa := SquareAlphabet();
    var m := MatrixFor(key);
    SquareAlphabetLetters();
    FirstOccurrencesElements(n + sa);
    assert forall x :: x in m <==> IsSquareLetter(x) by {
      forall x
        ensures x in m <==> IsSquareLetter(x)
      {
        assert x in m <==> x in n || x in sa;
      }
    }
    assert (set x | x in m) == (set x | x in sa);
    DistinctCard(m);
    DistinctCard(sa);
    FirstOccurrencesPrefix(n, sa);
  }

  /** generatePlayfairMatrix(key). */
  method GeneratePlayfairMatrix(key: Text) returns (matrix: Text)
    requires IsAscii(key)
    ensures matrix == MatrixFor(key) && |matrix| == 25
  {
    var letters := Normalise(key) + SquareAlphabet();
    var seen: set<CodeUnit> := {};
    matrix := [];
    for i := 0 to |letters|
      invariant matrix == FirstOccurrences(letters[..i])
      invariant forall x :: x in seen <==> x in letters[..i]
    {
      var c := letters[i];
      FirstOccurrencesElements(letters[..i]);
      assert letters[..i + 1][..i] == letters[..i];
      assert letters[..i + 1] == letters[..i] + [c];
      if c !in seen {
        seen := seen + {c};
        matrix := matrix + [c];
      }
    }
    assert letters[..|letters|] == letters;
    MatrixForValid(key);
  }

  // ---------------------------------------------------------------- worked example

  /** The square for the key "KEYWORD":
        K E Y W O
        R D A B C
        F G H I L
        M N P Q S
        T U V X Z */
  lemma KeywordMatrix()
    ensures MatrixFor(Literal("KEYWORD")) == Literal("KEYWORDABCFGHILMNPQSTUVXZ")
  {
    var n: Text := [75, 69, 89, 87, 79, 82, 68];
    KeywordLiterals();
    KeywordLetters();
    NormaliseSquareText(n);
    FirstOccurrencesOfDistinct(n);
    KeywordOmitted();
  }

  lemma KeywordLetters()
    ensures SquareText([75, 69, 89, 87, 79, 82, 68]) && Distinct([75, 69, 89, 87, 79, 82, 68])
  {
  }

  lemma KeywordLiterals()
    ensures Literal("KEYWORD") == [75, 69, 89, 87, 79, 82, 68]
    ensures Literal("KEYWORDABCFGHILMNPQSTUVXZ") == [75, 69, 89, 87, 79, 82, 68] +
              ([65, 66, 67] + [70, 71, 72, 73] + [76, 77, 78, 80] + [81, 83, 84, 85] + [86, 88, 90])
  {
  }

  /** The letters "KEYWORD" leaves of the J-less alphabet, row of five by row of five. */
  lemma KeywordOmitted()
    ensures Omitting(SquareAlphabet(), [75, 69, 89, 87, 79, 82, 68]) ==
              [65, 66, 67] + [70, 71, 72, 73] + [76, 77, 78, 80] + [81, 83, 84, 85] + [86, 88, 90]
  {
    var n: Text := [75, 69, 89, 87, 79, 82, 68];
    var r1, r2, r3, r4, r5: Text := [65, 66, 67, 68, 69], [70, 71, 72, 73, 75], [76, 77, 78, 79, 80],
                                   [81, 82, 83, 84, 85], [86, 87, 88, 89, 90];
    assert SquareAlphabet() == r1 + r2 + r3 + r4 + r5;
    OmittingAppend(r1, r2, n);
    OmittingAppend(r1 + r2, r3, n);
    OmittingAppend(r1 + r2 + r3, r4, n);
    OmittingAppend(r1 + r2 + r3 + r4, r5, n);
    KeywordRow1();
    KeywordRow2();
    KeywordRow3();
    KeywordRow4();
    KeywordRow5();
  }

  lemma KeywordRow1()
    ensures Omitting([65, 66, 67, 68, 69], [75, 69, 89, 87, 79, 82, 68]) == [65, 66, 67]
  {
    OmittingFive(65, 66, 67, 68, 69, [75, 69, 89, 87, 79, 82, 68]);
  }

  lemma KeywordRow2()
    ensures Omitting([70, 71, 72, 73, 75], [75, 69, 89, 87, 79, 82, 68]) == [70, 71, 72, 73]
  {
    OmittingFive(70, 71, 72, 73, 75, [75, 69, 89, 87, 79, 82, 68]);
  }

  lemma KeywordRow3()
    ensures Omitting([76, 77, 78, 79, 80], [75, 69, 89, 87, 79, 82, 68]) == [76, 77, 78, 80]
  {
    OmittingFive(76, 77, 78, 79, 80, [75, 69, 89, 87, 79, 82, 68]);
  }

  lemma KeywordRow4()
    ensures Omitting([81, 82, 83, 84, 85], [75, 69, 89, 87, 79, 82, 68]) == [81, 83, 84, 85]
  {
    OmittingFive(81, 82, 83, 84, 85, [75, 69, 89, 87, 79, 82, 68]);
  }

  lemma KeywordRow5()
    ensures Omitting([86, 87, 88, 89, 90], [75, 69, 89, 87, 79, 82, 68]) == [86, 88, 90]
  {
    OmittingFive(86, 87, 88, 89, 90, [75, 69, 89, 87, 79, 82, 68]);
  }

  /** Omitting from five units, one unit at a time. */
  lemma OmittingFive(x1: CodeUnit, x2: CodeUnit, x3: CodeUnit, x4: CodeUnit, x5: CodeUnit, a: Text)
    ensures Omitting([x1, x2, x3, x4, x5], a) ==
              (if x1 in a then [] else [x1]) + (if x2 in a then [] else [x2]) +
              (if x3 in a then [] else [x3]) + (if x4 in a then [] else [x4]) +
              (if x5 in a then [] else [x5])
  {
    assert [x1, x2, x3, x4, x5] == [x1] + [x2] + [x3] + [x4] + [x5];
    OmittingAppend([x1], [x2], a);
    OmittingAppend([x1] + [x2], [x3], a);
    OmittingAppend([x1] + [x2] + [x3], [x4], a);
    OmittingAppend([x1] + [x2] + [x3] + [x4], [x5], a);
    OmittingUnit(x1, a);
    OmittingUnit(x2, a);
    OmittingUnit(x3, a);
    OmittingUnit(x4, a);
    OmittingUnit(x5, a);
  }

  lemma OmittingUnit(x: CodeUnit, a: Text)
    ensures Omitting([x], a) == if x in a then [] else [x]
  {
    assert [x][..0] == [];
  }
}
