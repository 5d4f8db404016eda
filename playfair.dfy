/** playfairEncrypt, playfairDecrypt and processPlayfairPair of script.js. */
module Playfair {
  import opened Utf16
  import opened PlayfairMatrix

  /** 'X', the filler for a doubled letter or an odd last letter. */
  const Filler: CodeUnit := 88

  /** `matrix.indexOf(x)`: the first position holding x. */
  function IndexOf(m: Text, x: CodeUnit): (r: nat)
    requires x in m
    ensures r < |m| && m[r] == x
    ensures forall k :: 0 <= k < r ==> m[k] != x
  {
    if m[0] == x then 0 else 1 + IndexOf(m[1..], x)
  }

  lemma IndexOfDistinct(m: Text, k: nat)
    requires k < |m|
    ensures Distinct(m) ==> IndexOf(m, m[k]) == k
  {
  }

  /** Row and column of a position in the square (`Math.floor(idx / 5)`, `idx % 5`). */
  function Row(i: nat): (r: nat)
    ensures 5 * r <= i < 5 * r + 5
  {
    i / 5
  }

  function Col(i: nat): (c: nat)
    ensures c < 5 && i == 5 * Row(i) + c
  {
    i % 5
  }

  lemma CellCoords(row: nat, col: nat)
    requires row < 5 && col < 5
    ensures row * 5 + col < 25 && Row(row * 5 + col) == row && Col(row * 5 + col) == col
  {
    // one case per row keeps `row * 5` linear for the solver
    if row == 0 {
    } else if row == 1 {
    } else if row == 2 {
    } else if row == 3 {
    } else {
    }
  }

  lemma CellSplit(i: nat)
    requires i < 25
    ensures Row(i) < 5 && Col(i) < 5 && i == Row(i) * 5 + Col(i)
  {
  }

  /** `matrix[row * 5 + col]`: in a square without repeats, the letter whose `indexOf` gives
      back row and col. */
  function Cell(m: Text, row: nat, col: nat): (x: CodeUnit)
    requires |m| == 25 && row < 5 && col < 5
    ensures x in m
    ensures Distinct(m) ==> Row(IndexOf(m, x)) == row && Col(IndexOf(m, x)) == col
  {
    CellCoords(row, col);
    IndexOfDistinct(m, row * 5 + col);
    m[row * 5 + col]
  }

  /** The square coordinates of the two letters of a pair. */
  datatype Coords = Coords(rowA: nat, colA: nat, rowB: nat, colB: nat)

  predicate InSquare(c: Coords) { c.rowA < 5 && c.colA < 5 && c.rowB < 5 && c.colB < 5 }

  /** `idxA`, `idxB` split into rows and columns. */
  function Locate(a: CodeUnit, b: CodeUnit, m: Text): (c: Coords)
    requires |m| == 25 && a in m && b in m
    ensures InSquare(c)
  {
    var ia, ib := IndexOf(m, a), IndexOf(m, b);
    CellSplit(ia);
    CellSplit(ib);
    Coords(Row(ia), Col(ia), Row(ib), Col(ib))
  }

  /** The rule processPlayfairPair applies to a pair, by where its letters sit. */
  datatype Placement = SameRow | SameColumn | Rectangle

  function PlacementOf(c: Coords): Placement
  {
    if c.rowA == c.rowB then SameRow
    else if c.colA == c.colB then SameColumn
    else Rectangle
  }

  /** Where the two letters go: same row, one column right (four, that is one left, when
      decrypting); same column, one row down (or up); otherwise each takes the other's column. */
  function Moved(c: Coords, encrypt: bool): (n: Coords)
    requires InSquare(c)
    ensures InSquare(n)
  {
    var step := if encrypt then 1 else 4;
    if c.rowA == c.rowB then Coords(c.rowA, (c.colA + step) % 5, c.rowB, (c.colB + step) % 5)
    else if c.colA == c.colB then Coords((c.rowA + step) % 5, c.colA, (c.rowB + step) % 5, c.colB)
    else Coords(c.rowA, c.colB, c.rowB, c.colA)
  }

  lemma StepBack(c: nat, step: nat)
    requires c < 5 && (step == 1 || step == 4)
    ensures ((c + step) % 5 + (5 - step)) % 5 == c
  {
  }

  /** Moving keeps the placement, and moving the other way undoes it. */
  lemma MovedRoundTrip(c: Coords, encrypt: bool)
    requires InSquare(c)
    ensures PlacementOf(Moved(c, encrypt)) == PlacementOf(c)
    ensures Moved(Moved(c, encrypt), !encrypt) == c
  {
    if c.rowA == c.rowB {
      RowRoundTrip(c, encrypt);
    } else if c.colA == c.colB {
      ColumnRoundTrip(c, encrypt);
    }
  }

  lemma RowRoundTrip(c: Coords, encrypt: bool)
    requires InSquare(c) && c.rowA == c.rowB
    ensures PlacementOf(Moved(c, encrypt)) == SameRow
    ensures Moved(Moved(c, encrypt), !encrypt) == c
  {
    var step := if encrypt then 1 else 4;
    assert Moved(c, encrypt) == Coords(c.rowA, (c.colA + step) % 5, c.rowB, (c.colB + step) % 5);
    StepBack(c.colA, step);
    StepBack(c.colB, step);
  }

  lemma ColumnRoundTrip(c: Coords, encrypt: bool)
    requires InSquare(c) && c.rowA != c.rowB && c.colA == c.colB
    ensures PlacementOf(Moved(c, encrypt)) == SameColumn
    ensures Moved(Moved(c, encrypt), !encrypt) == c
  {
    var step := if encrypt then 1 else 4;
    var n := Moved(c, encrypt);
    assert n == Coords((c.rowA + step) % 5, c.colA, (c.rowB + step) % 5, c.colB);
    StepBack(c.rowA, step);
    StepBack(c.rowB, step);
    assert n.rowA != n.rowB;
  }

  /** processPlayfairPair(a, b, matrix, encrypt): the letters at the moved coordinates. */
  function ProcessPair(a: CodeUnit, b: CodeUnit, m: Text, encrypt: bool): (r: Text)
    requires |m| == 25 && a in m && b in m
    ensures |r| == 2 && r[0] in m && r[1] in m
  {
    var n := Moved(Locate(a, b, m), encrypt);
    [Cell(m, n.rowA, n.colA), Cell(m, n.rowB, n.colB)]
  }

  lemma LocateCells(m: Text, c: Coords)
    requires ValidMatrix(m) && InSquare(c)
    ensures Cell(m, c.rowA, c.colA) in m && Cell(m, c.rowB, c.colB) in m
    ensures Locate(Cell(m, c.rowA, c.colA), Cell(m, c.rowB, c.colB), m) == c
  {
  }

  lemma CellsLocated(a: CodeUnit, b: CodeUnit, m: Text)
    requires |m| == 25 && a in m && b in m
    ensures var c := Locate(a, b, m); Cell(m, c.rowA, c.colA) == a && Cell(m, c.rowB, c.colB) == b
  {
    CellSplit(IndexOf(m, a));
    CellSplit(IndexOf(m, b));
  }

  /** With a valid square, decrypting an encrypted pair gives it back and encrypting a decrypted
      pair does too; and the pair keeps its placement, so both sides pick the same rule. */
  lemma PairRoundTrip(a: CodeUnit, b: CodeUnit, m: Text, encrypt: bool)
    requires ValidMatrix(m) && a in m && b in m
    ensures var r := ProcessPair(a, b, m, encrypt);
      PlacementOf(Locate(r[0], r[1], m)) == PlacementOf(Locate(a, b, m)) &&
      ProcessPair(r[0], r[1], m, !encrypt) == [a, b]
  {
    var c := Locate(a, b, m);
    var n := Moved(c, encrypt);
    LocateCells(m, n);
    MovedRoundTrip(c, encrypt);
    CellsLocated(a, b, m);
  }

  /** With a valid square, the two output letters sit exactly at the moved coordinates. */
  lemma ProcessPairMoves(a: CodeUnit, b: CodeUnit, m: Text, encrypt: bool)
    requires ValidMatrix(m) && a in m && b in m
    ensures var r := ProcessPair(a, b, m, encrypt);
      Locate(r[0], r[1], m) == Moved(Locate(a, b, m), encrypt)
  {
    LocateCells(m, Moved(Locate(a, b, m), encrypt));
  }

  /** A pair in one row moves one column to the right on encryption and one to the left on
      decryption, wrapping around; both letters stay in the row. */
  lemma MovedSameRow(c: Coords, encrypt: bool)
    requires InSquare(c) && c.rowA == c.rowB
    ensures var n := Moved(c, encrypt);
      n.rowA == c.rowA && n.rowB == c.rowB &&
      (encrypt ==> n.colA == (c.colA + 1) % 5 && n.colB == (c.colB + 1) % 5) &&
      (!encrypt ==> (n.colA + 1) % 5 == c.colA && (n.colB + 1) % 5 == c.colB)
  {
  }

  /** A pair in one column (and two rows) moves one row down on encryption and one row up on
      decryption, wrapping around; both letters stay in the column. */
  lemma MovedSameColumn(c: Coords, encrypt: bool)
    requires InSquare(c) && c.rowA != c.rowB && c.colA == c.colB
    ensures var n := Moved(c, encrypt);
      n.colA == c.colA && n.colB == c.colB &&
      (encrypt ==> n.rowA == (c.rowA + 1) % 5 && n.rowB == (c.rowB + 1) % 5) &&
      (!encrypt ==> (n.rowA + 1) % 5 == c.rowA && (n.rowB + 1) % 5 == c.rowB)
  {
  }

  /** A rectangle keeps each letter in its own row and swaps the two columns. */
  lemma RectangleKeepsRows(a: CodeUnit, b: CodeUnit, m: Text, encrypt: bool)
    requires ValidMatrix(m) && a in m && b in m && PlacementOf(Locate(a, b, m)) == Rectangle
    ensures var c, r := Locate(a, b, m), ProcessPair(a, b, m, encrypt);
      var n := Locate(r[0], r[1], m);
      n.rowA == c.rowA && n.rowB == c.rowB && n.colA == c.colB && n.colB == c.colA
  {
    ProcessPairMoves(a, b, m, encrypt);
  }

  /** The pair rule of square m as a function value, which the loops over pairs apply. Only
      letters of the square ever reach it; anything else is sent to the empty text. */
  function PairRule(m: Text, encrypt: bool): (rule: (CodeUnit, CodeUnit) -> Text)
    requires |m| == 25
    ensures forall a, b {:trigger rule(a, b)} :: a in m && b in m ==>
              |rule(a, b)| == 2 && rule(a, b)[0] in m && rule(a, b)[1] in m
    ensures forall a, b {:trigger rule(a, b)} :: !(a in m && b in m) ==> rule(a, b) == []
  {
    (a: CodeUnit, b: CodeUnit) => if a in m && b in m then ProcessPair(a, b, m, encrypt) else []
  }

  /** f applied to consecutive pairs of s, the results concatenated: what the Playfair loops
      append, pair after pair. */
  function MapPairs(s: Text, f: (CodeUnit, CodeUnit) -> Text): (r: Text)
    requires |s| % 2 == 0
    ensures (forall a, b {:trigger f(a, b)} :: |f(a, b)| == 2) ==> |r| == |s|
    decreases |s|
  {
    if s == [] then [] else f(s[0], s[1]) + MapPairs(s[2..], f)
  }

  lemma MapPairsCons(s: Text, f: (CodeUnit, CodeUnit) -> Text)
    requires |s| % 2 == 0 && s != []
    ensures MapPairs(s, f) == f(s[0], s[1]) + MapPairs(s[2..], f)
  {
  }

  /** The pairs from an even position i on: the pair at i, then those from i + 2. */
  lemma MapPairsSuffix(s: Text, i: nat, f: (CodeUnit, CodeUnit) -> Text)
    requires |s| % 2 == 0 && i % 2 == 0 && i < |s|
    ensures MapPairs(s[i..], f) == f(s[i], s[i + 1]) + MapPairs(s[i + 2..], f)
  {
    assert s[i..][2..] == s[i + 2..];
  }

  /** A pair function that maps pairs of d to pairs of d maps texts over d to texts over d of
      the same length. */
  lemma {:induction false} MapPairsInside(s: Text, f: (CodeUnit, CodeUnit) -> Text, d: Text)
    requires |s| % 2 == 0 && forall k :: 0 <= k < |s| ==> s[k] in d
    requires forall a, b {:trigger f(a, b)} :: a in d && b in d ==> |f(a, b)| == 2 && f(a, b)[0] in d && f(a, b)[1] in d
    ensures |MapPairs(s, f)| == |s|
    ensures forall k :: 0 <= k < |s| ==> MapPairs(s, f)[k] in d
    decreases |s|
  {
    if s != [] {
      MapPairsInside(s[2..], f, d);
      var r := MapPairs(s, f);
      assert r == f(s[0], s[1]) + MapPairs(s[2..], f);
      forall k | 0 <= k < |s|
        ensures r[k] in d
      {
        if k >= 2 {
          assert r[k] == MapPairs(s[2..], f)[k - 2];
        }
      }
    }
  }

  /** When g undoes f on every pair of d, mapping g over pairs undoes mapping f. */
  lemma {:induction false} MapPairsInverse(s: Text, f: (CodeUnit, CodeUnit) -> Text, g: (CodeUnit, CodeUnit) -> Text, d: Text)
    requires |s| % 2 == 0 && forall k :: 0 <= k < |s| ==> s[k] in d
    requires forall a, b {:trigger f(a, b)} :: a in d && b in d ==> |f(a, b)| == 2 && f(a, b)[0] in d && f(a, b)[1] in d
    requires forall a, b {:trigger f(a, b)} :: a in d && b in d ==> g(f(a, b)[0], f(a, b)[1]) == [a, b]
    ensures |MapPairs(s, f)| == |s|
    ensures MapPairs(MapPairs(s, f), g) == s
    decreases |s|
  {
    MapPairsInside(s, f, d);
    if s != [] {
      var p := f(s[0], s[1]);
      var rest := MapPairs(s[2..], f);
      var r := MapPairs(s, f);
      assert r == p + rest;
      MapPairsInverse(s[2..], f, g, d);
      assert r[0] == p[0] && r[1] == p[1] && r[2..] == rest;
      assert s == [s[0], s[1]] + s[2..];
    }
  }

  /** In a valid square the pair rule sends pairs of square letters to pairs of square letters,
      and the rule for the other direction undoes it. */
  lemma PairRuleInverse(m: Text, encrypt: bool)
    requires ValidMatrix(m)
    ensures forall a, b {:trigger PairRule(m, encrypt)(a, b)} :: a in m && b in m ==>
      var r := PairRule(m, encrypt)(a, b);
      |r| == 2 && r[0] in m && r[1] in m && PairRule(m, !encrypt)(r[0], r[1]) == [a, b]
  {
    forall a, b | a in m && b in m
      ensures var r := PairRule(m, encrypt)(a, b);
        |r| == 2 && r[0] in m && r[1] in m && PairRule(m, !encrypt)(r[0], r[1]) == [a, b]
    {
      PairRoundTrip(a, b, m, encrypt);
    }
  }

  /** The pairs the encryption loop feeds to processPlayfairPair from position i of the cleaned
      text, flattened: a letter with its successor when they differ, else with 'X'. The loop then
      moves on by two, or by one only when the pair was "XX" made of one 'X' and the filler. */
  function Digraphs(t: Text, i: nat): (r: Text)
    ensures |r| % 2 == 0
    ensures forall k :: 0 <= k < |r| ==> r[k] == Filler || r[k] in t
    decreases if i <= |t| then |t| - i else 0
  {
    if i >= |t| then []
    else
      var a := t[i];
      var b := if i + 1 < |t| && t[i] != t[i + 1] then t[i + 1] else Filler;
      [a, b] + Digraphs(t, if a == b then i + 1 else i + 2)
  }

  /** The padded text has even length and, for cleaned text, holds only square letters. */
  lemma DigraphsShape(t: Text, i: nat)
    ensures |Digraphs(t, i)| % 2 == 0
    ensures SquareText(t) ==> SquareText(Digraphs(t, i))
  {
    var r := Digraphs(t, i);
    if SquareText(t) {
      forall k | 0 <= k < |r|
        ensures IsSquareLetter(r[k])
      {
        if r[k] != Filler {
          var w :| 0 <= w < |t| && t[w] == r[k];
        }
      }
    }
  }

  /** A doubled letter other than 'X' is paired with 'X' and its repeat is dropped. */
  lemma DoubledLetter(t: Text, i: nat)
    requires i + 1 < |t| && t[i] == t[i + 1] && t[i] != Filler
    ensures Digraphs(t, i) == [t[i], Filler] + Digraphs(t, i + 2)
  {
  }

  /** A doubled 'X' is paired with the filler 'X' and the loop moves on by one only. */
  lemma DoubledFiller(t: Text, i: nat)
    requires i + 1 < |t| && t[i] == Filler && t[i + 1] == Filler
    ensures Digraphs(t, i) == [Filler, Filler] + Digraphs(t, i + 1)
  {
  }

  /** Two different neighbours are paired as they stand and the loop moves on by two. */
  lemma DistinctPairStep(t: Text, i: nat)
    requires i + 1 < |t| && t[i] != t[i + 1]
    ensures Digraphs(t, i) == [t[i], t[i + 1]] + Digraphs(t, i + 2)
  {
  }

  /** A lone last letter is padded with 'X', and the pairing ends there. */
  lemma LoneLetter(t: Text)
    requires |t| > 0
    ensures Digraphs(t, |t| - 1) == [t[|t| - 1], Filler]
  {
  }

  /** No pair at an even position is a doubled letter. */
  predicate NoDoubledPair(t: Text)
  {
    forall k :: 0 <= k < |t| - 1 && k % 2 == 0 ==> t[k] != t[k + 1]
  }

  /** Even-length text without doubled pairs is its own padding. */
  lemma {:induction false} DigraphsIdentity(t: Text, i: nat)
    requires |t| % 2 == 0 && i % 2 == 0 && i <= |t| && NoDoubledPair(t)
    ensures Digraphs(t, i) == t[i..]
    decreases |t| - i
  {
    if i < |t| {
      assert t[i] != t[i + 1];
      DigraphsIdentity(t, i + 2);
      assert t[i..] == [t[i], t[i + 1]] + t[i + 2..];
    }
  }

  lemma HelloExample()
    ensures Digraphs([72, 69, 76, 76, 79], 0) == [72, 69, 76, 88, 79, 88]  // HELLO -> HE LX OX
  {
    var t: Text := [72, 69, 76, 76, 79];
    assert Digraphs(t, 6) == [];
    assert Digraphs(t, 4) == [79, 88];
    assert Digraphs(t, 2) == [76, 88] + [79, 88];
    assert Digraphs(t, 0) == [72, 69] + [76, 88, 79, 88];
  }

  /** What playfairEncrypt(text, key) returns: ciphertext of even length holding only square
      letters, which decryption accepts. */
  function Enciphered(text: Text, key: Text): (r: Text)
    requires IsAscii(text) && IsAscii(key)
    ensures |r| % 2 == 0 && SquareText(r)
  {
    var m := MatrixFor(key);
    var d := Digraphs(Normalise(text), 0);
    MatrixForValid(key);
    DigraphsShape(Normalise(text), 0);
    PairRuleInverse(m, true);
    MapPairsInside(d, PairRule(m, true), m);
    MapPairs(d, PairRule(m, true))
  }

  /** What playfairDecrypt(text, key) returns, for text of paired square letters. */
  function Deciphered(text: Text, key: Text): (r: Text)
    requires IsAscii(key) && |text| % 2 == 0 && SquareText(text)
    ensures |r| == |text| && SquareText(r)
  {
    var m := MatrixFor(key);
    MatrixForValid(key);
    PairRuleInverse(m, false);
    MapPairsInside(text, PairRule(m, false), m);
    MapPairs(text, PairRule(m, false))
  }

  /** Decryption gives back the cleaned plaintext with its fillers. */
  lemma DecryptsToDigraphs(text: Text, key: Text)
    requires IsAscii(text) && IsAscii(key)
    ensures Deciphered(Enciphered(text, key), key) == Digraphs(Normalise(text), 0)
  {
    var m := MatrixFor(key);
    MatrixForValid(key);
    DigraphsShape(Normalise(text), 0);
    PairRuleInverse(m, true);
    MapPairsInverse(Digraphs(Normalise(text), 0), PairRule(m, true), PairRule(m, false), m);
  }

  /** For upper-case, J-free, letter-only text of even length whose pairs are not doubled,
      decryption gives back exactly the plaintext. */
  lemma PlayfairRoundTrip(text: Text, key: Text)
    requires IsAscii(key) && SquareText(text) && |text| % 2 == 0 && NoDoubledPair(text)
    ensures IsAscii(text)
    ensures Deciphered(Enciphered(text, key), key) == text
  {
    NormaliseSquareText(text);
    DecryptsToDigraphs(text, key);
    DigraphsIdentity(text, 0);
  }

  /** HELLO under the key "KEYWORD": paired as HE LX OX, which the square of KeywordMatrix
      turns into GY IZ WZ, each pair a rectangle. */
  lemma HelloCipher()
    ensures Enciphered(Literal("HELLO"), Literal("KEYWORD")) == Literal("GYIZWZ")
  {
    var m := MatrixFor(Literal("KEYWORD"));
    HelloDigraphs();
    KeywordLiterals();
    KeywordMatrix();
    MatrixForValid(Literal("KEYWORD"));
    KeywordCells(m);
    HelloPairs(m);
    HelloCipherText();
  }

  lemma HelloCipherText()
    ensures Literal("GYIZWZ") == [71, 89] + [73, 90] + [87, 90]
  {
  }

  lemma HelloText()
    ensures Literal("HELLO") == [72, 69, 76, 76, 79]
  {
  }

  lemma HelloDigraphs()
    ensures IsAscii(Literal("HELLO"))
    ensures Digraphs(Normalise(Literal("HELLO")), 0) == [72, 69, 76, 88, 79, 88]
  {
    var h: Text := [72, 69, 76, 76, 79];
    HelloText();
    assert SquareText(h);
    NormaliseSquareText(h);
    HelloExample();
  }

  /** The cells of the "KEYWORD" square that HELLO reads and writes. */
  lemma KeywordCells(m: Text)
    requires m == [75, 69, 89, 87, 79, 82, 68] +
                  ([65, 66, 67] + [70, 71, 72, 73] + [76, 77, 78, 80] + [81, 83, 84, 85] + [86, 88, 90])
    ensures m[12] == 72 && m[1] == 69 && m[14] == 76 && m[23] == 88 && m[4] == 79
    ensures m[11] == 71 && m[2] == 89 && m[13] == 73 && m[24] == 90 && m[3] == 87
    ensures m[0] == 75 && m[5] == 82 && m[10] == 70
  {
  }

  /** The three pairs of HELLO in any square with those cells. */
  lemma HelloPairs(m: Text)
    requires |m| == 25 && Distinct(m)
    requires m[12] == 72 && m[1] == 69 && m[14] == 76 && m[23] == 88 && m[4] == 79
    requires m[11] == 71 && m[2] == 89 && m[13] == 73 && m[24] == 90 && m[3] == 87
    ensures MapPairs([72, 69, 76, 88, 79, 88], PairRule(m, true)) == [71, 89] + [73, 90] + [87, 90]
  {
    PairHE(m);
    PairLX(m);
    PairOX(m);
    MapThreePairs([72, 69, 76, 88, 79, 88], PairRule(m, true));
  }

  /** Six units are three pairs. */
  lemma MapThreePairs(d: Text, f: (CodeUnit, CodeUnit) -> Text)
    requires |d| == 6
    ensures MapPairs(d, f) == f(d[0], d[1]) + f(d[2], d[3]) + f(d[4], d[5])
  {
    assert d[2..][2..][2..] == [];
    MapPairsCons(d, f);
    MapPairsCons(d[2..], f);
    MapPairsCons(d[2..][2..], f);
  }

  /** H (row 2, column 2) and E (row 0, column 1) form a rectangle: G and Y. */
  lemma PairHE(m: Text)
    requires |m| == 25 && Distinct(m) && m[12] == 72 && m[1] == 69 && m[11] == 71 && m[2] == 89
    ensures PairRule(m, true)(72, 69) == [71, 89]
  {
    PairAtIndices(m, 12, 1, true);
  }

  /** L (row 2, column 4) and X (row 4, column 3) form a rectangle: I and Z. */
  lemma PairLX(m: Text)
    requires |m| == 25 && Distinct(m) && m[14] == 76 && m[23] == 88 && m[13] == 73 && m[24] == 90
    ensures PairRule(m, true)(76, 88) == [73, 90]
  {
    PairAtIndices(m, 14, 23, true);
  }

  /** O (row 0, column 4) and X (row 4, column 3) form a rectangle: W and Z. */
  lemma PairOX(m: Text)
    requires |m| == 25 && Distinct(m) && m[4] == 79 && m[23] == 88 && m[3] == 87 && m[24] == 90
    ensures PairRule(m, true)(79, 88) == [87, 90]
  {
    PairAtIndices(m, 4, 23, true);
  }

  /** Under "KEYWORD", a row pair and a column pair: KE (row 0) encrypts to EY and EY decrypts
      to KE; KR (column 0) encrypts to RF. */
  lemma KeywordLinePairs()
    ensures |MatrixFor(Literal("KEYWORD"))| == 25
    ensures PairRule(MatrixFor(Literal("KEYWORD")), true)(75, 69) == [69, 89]
    ensures PairRule(MatrixFor(Literal("KEYWORD")), false)(69, 89) == [75, 69]
    ensures PairRule(MatrixFor(Literal("KEYWORD")), true)(75, 82) == [82, 70]
  {
    var m := MatrixFor(Literal("KEYWORD"));
    KeywordLiterals();
    KeywordMatrix();
    MatrixForValid(Literal("KEYWORD"));
    KeywordCells(m);
    PairKE(m);
    PairEY(m);
    PairKR(m);
  }

  /** K (row 0, column 0) and E (row 0, column 1) share a row: E and Y. */
  lemma PairKE(m: Text)
    requires |m| == 25 && Distinct(m) && m[0] == 75 && m[1] == 69 && m[2] == 89
    ensures PairRule(m, true)(75, 69) == [69, 89]
  {
    PairAtIndices(m, 0, 1, true);
  }

  /** E (row 0, column 1) and Y (row 0, column 2) share a row; decryption moves left: K and E. */
  lemma PairEY(m: Text)
    requires |m| == 25 && Distinct(m) && m[0] == 75 && m[1] == 69 && m[2] == 89
    ensures PairRule(m, false)(69, 89) == [75, 69]
  {
    PairAtIndices(m, 1, 2, false);
  }

  /** K (row 0, column 0) and R (row 1, column 0) share a column: R and F. */
  lemma PairKR(m: Text)
    requires |m| == 25 && Distinct(m) && m[0] == 75 && m[5] == 82 && m[10] == 70
    ensures PairRule(m, true)(75, 82) == [82, 70]
  {
    PairAtIndices(m, 0, 5, true);
  }

  /** The pair rule on the letters at positions ia and ib of a square, by their positions. */
  lemma PairAtIndices(m: Text, ia: nat, ib: nat, encrypt: bool)
    requires |m| == 25 && Distinct(m) && ia < 25 && ib < 25
    ensures var n := Moved(Coords(Row(ia), Col(ia), Row(ib), Col(ib)), encrypt);
      ProcessPair(m[ia], m[ib], m, encrypt) == [m[n.rowA * 5 + n.colA], m[n.rowB * 5 + n.colB]]
  {
    IndexOfDistinct(m, ia);
    IndexOfDistinct(m, ib);
  }

  /** playfairEncrypt(text, key). */
  method PlayfairEncrypt(text: Text, key: Text) returns (result: Text)
    requires IsAscii(text) && IsAscii(key)
    ensures result == Enciphered(text, key)
  {
    var matrix := GeneratePlayfairMatrix(key);
    var t := Normalise(text);
    result := EncryptPairs(t, PairRule(matrix, true));
  }

  /** The variable-step loop of playfairEncrypt over the cleaned text t, with `pair` standing for
      processPlayfairPair with the square and `encrypt` fixed. */
  method EncryptPairs(t: Text, pair: (CodeUnit, CodeUnit) -> Text) returns (result: Text)
    ensures |Digraphs(t, 0)| % 2 == 0
    ensures result == MapPairs(Digraphs(t, 0), pair)
  {
    DigraphsShape(t, 0);
    result := [];
    var i := 0;
    while i < |t|
      invariant i <= |t| + 1
      invariant |Digraphs(t, i)| % 2 == 0
      invariant result + MapPairs(Digraphs(t, i), pair) == MapPairs(Digraphs(t, 0), pair)
      decreases |t| + 1 - i
    {
      var a := t[i];
      var b := if i + 1 < |t| && t[i] != t[i + 1] then t[i + 1] else Filler;
      var next := if a == b then i + 1 else i + 2;
      var d := Digraphs(t, i);
      assert d == [a, b] + Digraphs(t, next);
      assert d[0] == a && d[1] == b && d[2..] == Digraphs(t, next);
      DigraphsShape(t, next);
      MapPairsCons(d, pair);
      assert result + pair(a, b) + MapPairs(Digraphs(t, next), pair) == result + MapPairs(d, pair);
      result := result + pair(a, b);
      i := next;
    }
  }

  /** playfairDecrypt(text, key), for text of paired square letters. */
  method PlayfairDecrypt(text: Text, key: Text) returns (result: Text)
    requires IsAscii(key) && |text| % 2 == 0 && SquareText(text)
    ensures result == Deciphered(text, key)
  {
    var matrix := GeneratePlayfairMatrix(key);
    result := DecryptPairs(text, PairRule(matrix, false));
  }

  /** The stride-two loop of playfairDecrypt, with `pair` standing for processPlayfairPair with
      the square and `encrypt` fixed. */
  method DecryptPairs(text: Text, pair: (CodeUnit, CodeUnit) -> Text) returns (result: Text)
    requires |text| % 2 == 0
    ensures result == MapPairs(text, pair)
  {
    result := [];
    var i := 0;
    assert text[0..] == text;
    while i < |text|
      invariant i <= |text| && i % 2 == 0
      invariant result + MapPairs(text[i..], pair) == MapPairs(text, pair)
      decreases |text| - i
    {
      var p := pair(text[i], text[i + 1]);
      var later := MapPairs(text[i + 2..], pair);
      MapPairsSuffix(text, i, pair);
      assert result + p + later == result + (p + later);
      result := result + p;
      i := i + 2;
    }
    assert text[i..] == [];
    assert result + [] == result;
  }
}
