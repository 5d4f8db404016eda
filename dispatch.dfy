/** The switch in `process` of script.js, without the page around it: the algorithm and the
    action are the values of the two controls, and the result is what would be shown. */
module Dispatch {
  import opened Utf16
  import Substitution
  import Vigenere
  import PlayfairMatrix
  import Playfair

  datatype Option<T> = None | Some(value: T)

  /** The keys hard-wired into `process`. */
  function VigenereKey(): Text { Literal("KEY") }
  function XorKeyText(): Text { Literal("K") }
  function PlayfairKey(): Text { Literal("KEYWORD") }

  lemma KeysSpelled()
    ensures VigenereKey() == [75, 69, 89] && XorKeyText() == [75] && PlayfairKey() == [75, 69, 89, 87, 79, 82, 68]
  {
  }

  /** The keys are ASCII upper-case letters; "K" is below 0x400, so its XOR leaves surrogates be. */
  lemma KeysAreAsciiLetters()
    ensures IsAscii(VigenereKey()) && IsAscii(PlayfairKey())
    ensures |VigenereKey()| > 0 && forall i :: 0 <= i < |VigenereKey()| ==> IsLetter(VigenereKey()[i])
    ensures Substitution.XorKey(XorKeyText()) < 0x400
  {
    KeysSpelled();
  }

  /** The algorithms the switch knows, and the default case for every other name. */
  datatype Algorithm = Caesar | Atbash | Reverse | Vigenere | Base64 | Xor | Playfair | Unknown

  /** The `case` label of the switch that the select's value matches. */
  function AlgorithmNamed(name: string): (a: Algorithm)
    ensures a == Unknown <==>
              name !in {"caesar", "atbash", "reverse", "vigenere", "base64", "xor", "playfair"}
  {
    match name
    case "caesar" => Caesar
    case "atbash" => Atbash
    case "reverse" => Reverse
    case "vigenere" => Vigenere
    case "base64" => Base64
    case "xor" => Xor
    case "playfair" => Playfair
    case _ => Unknown
  }

  /** Each option value of the select selects its own case; every other value the default. */
  lemma AlgorithmNames(name: string)
    ensures AlgorithmNamed("caesar") == Caesar && AlgorithmNamed("atbash") == Atbash
    ensures AlgorithmNamed("reverse") == Reverse && AlgorithmNamed("vigenere") == Vigenere
    ensures AlgorithmNamed("base64") == Base64 && AlgorithmNamed("xor") == Xor
    ensures AlgorithmNamed("playfair") == Playfair
    ensures AlgorithmNamed(name) == Unknown <==>
              name !in {"caesar", "atbash", "reverse", "vigenere", "base64", "xor", "playfair"}
  {
  }

  /** What `process` may be called on: the model of playfairEncrypt upper-cases ASCII text only,
      and playfairDecrypt is only defined on pairs of square letters. */
  predicate Accepts(text: Text, algorithm: string, action: string): (ok: bool)
    ensures AlgorithmNamed(algorithm) != Playfair ==> ok
    ensures action == "encrypt" && IsAscii(text) ==> ok
    ensures action != "encrypt" && |text| % 2 == 1 ==> (ok <==> AlgorithmNamed(algorithm) != Playfair)
  {
    AlgorithmNamed(algorithm) == Playfair ==>
      if action == "encrypt" then IsAscii(text)
      else |text| % 2 == 0 && PlayfairMatrix.SquareText(text)
  }

  /** The output `process(action)` shows for input text and the chosen algorithm. Base64 goes
      through the browser's `btoa` and `atob`, given here as parameters that yield None where the
      browser would throw. The "encrypt" action encrypts; every other action decrypts. */
  function Process(text: Text, algorithm: string, action: string,
                   btoa: Text -> Option<Text>, atob: Text -> Option<Text>): (r: Option<Text>)
    requires Accepts(text, algorithm, action)
    ensures AlgorithmNamed(algorithm) != Base64 ==> r.Some?
    ensures AlgorithmNamed(algorithm) == Unknown ==> r == Some(Literal("Unknown algorithm"))
  {
    KeysAreAsciiLetters();
    var encrypt := action == "encrypt";
    match AlgorithmNamed(algorithm)
    case Caesar =>
      Some(if encrypt then Substitution.CaesarEncrypt(text) else Substitution.CaesarDecrypt(text))
    case Atbash => Some(Substitution.Atbash(text))
    case Reverse => Some(Substitution.ReverseText(text))
    case Vigenere =>
      var key := UpperCase(VigenereKey());
      Some(if encrypt then Vigenere.Enciphered(text, key, 0) else Vigenere.Deciphered(text, key, 0))
    case Base64 => if encrypt then btoa(text) else atob(text)
    case Xor => Some(Substitution.XorCipher(text, XorKeyText()))
    case Playfair =>
      Some(if encrypt then Playfair.Enciphered(text, PlayfairKey()) else Playfair.Deciphered(text, PlayfairKey()))
    case Unknown => Some(Literal("Unknown algorithm"))
  }

  /** The caesar case shifts by the default 3: forward on "encrypt", back otherwise. */
  lemma CaesarBranch(text: Text, action: string, btoa: Text -> Option<Text>, atob: Text -> Option<Text>)
    ensures Process(text, "caesar", action, btoa, atob) ==
              Some(if action == "encrypt" then Substitution.CaesarEncrypt(text, 3) else Substitution.CaesarDecrypt(text, 3))
  {
    AlgorithmNames("caesar");
  }

  /** The vigenere case uses the key "KEY", which upper-casing leaves as it is. */
  lemma VigenereBranch(text: Text, action: string, btoa: Text -> Option<Text>, atob: Text -> Option<Text>)
    ensures Process(text, "vigenere", action, btoa, atob) ==
              Some(if action == "encrypt" then Vigenere.Enciphered(text, Literal("KEY"), 0)
                   else Vigenere.Deciphered(text, Literal("KEY"), 0))
  {
    AlgorithmNames("vigenere");
    KeysSpelled();
    KeysAreAsciiLetters();
    assert UpperCase(VigenereKey()) == VigenereKey();
  }

  /** The atbash and reverse cases ignore the action. */
  lemma InvolutionBranches(text: Text, action: string, btoa: Text -> Option<Text>, atob: Text -> Option<Text>)
    ensures Process(text, "atbash", action, btoa, atob) == Some(Substitution.Atbash(text))
    ensures Process(text, "reverse", action, btoa, atob) == Some(Substitution.ReverseText(text))
  {
    AlgorithmNames("atbash");
  }

  /** The branches of the switch that the round-trip lemmas go through. */
  lemma XorBranch(text: Text, action: string, btoa: Text -> Option<Text>, atob: Text -> Option<Text>)
    ensures Process(text, "xor", action, btoa, atob) == Some(Substitution.XorCipher(text, XorKeyText()))
  {
    AlgorithmNames("xor");
  }

  lemma PlayfairBranch(text: Text, action: string, btoa: Text -> Option<Text>, atob: Text -> Option<Text>)
    requires Accepts(text, "playfair", action)
    ensures IsAscii(PlayfairKey())
    ensures action == "encrypt" ==> Process(text, "playfair", action, btoa, atob) == Some(Playfair.Enciphered(text, PlayfairKey()))
    ensures action != "encrypt" ==> Process(text, "playfair", action, btoa, atob) == Some(Playfair.Deciphered(text, PlayfairKey()))
  {
    AlgorithmNames("playfair");
    KeysAreAsciiLetters();
  }

  /** Decrypting what was encrypted, through the same switch. */
  predicate RoundTrips(text: Text, algorithm: string, btoa: Text -> Option<Text>, atob: Text -> Option<Text>)
  {
    Accepts(text, algorithm, "encrypt") &&
    var e := Process(text, algorithm, "encrypt", btoa, atob);
    e.Some? && Accepts(e.value, algorithm, "decrypt") &&
    Process(e.value, algorithm, "decrypt", btoa, atob) == Some(text)
  }

  /** Caesar with its default shift of 3 and Vigenère with the key "KEY" give every text back. */
  lemma ShiftCiphersRoundTrip(text: Text, btoa: Text -> Option<Text>, atob: Text -> Option<Text>)
    ensures RoundTrips(text, "caesar", btoa, atob)
    ensures RoundTrips(text, "vigenere", btoa, atob)
  {
    AlgorithmNames("caesar");
    assert "decrypt"[0] != "encrypt"[0];
    Substitution.CaesarRoundTrip(text, 3);
    KeysAreAsciiLetters();
    Vigenere.VigenereRoundTrip(text, VigenereKey());
  }

  /** Atbash and reverse ignore the action and undo themselves: "decrypt" after "encrypt" gives
      every text back. */
  lemma InvolutionsRoundTrip(text: Text, action: string, btoa: Text -> Option<Text>, atob: Text -> Option<Text>)
    ensures Process(text, "atbash", action, btoa, atob) == Process(text, "atbash", "encrypt", btoa, atob)
    ensures Process(text, "reverse", action, btoa, atob) == Process(text, "reverse", "encrypt", btoa, atob)
    ensures RoundTrips(text, "atbash", btoa, atob)
    ensures RoundTrips(text, "reverse", btoa, atob)
  {
    AlgorithmNames("atbash");
    Substitution.AtbashInvolution(text);
    Substitution.ReverseInvolution(text);
  }

  /** XOR with "K" ignores the action and undoes itself on text without surrogate pairs ('K' is
      below 0x400, so the result has none either). */
  lemma XorRoundTrip(text: Text, action: string, btoa: Text -> Option<Text>, atob: Text -> Option<Text>)
    requires Substitution.NoSurrogatePairs(text)
    ensures Process(text, "xor", action, btoa, atob) == Process(text, "xor", "encrypt", btoa, atob)
    ensures RoundTrips(text, "xor", btoa, atob)
  {
    XorBranch(text, action, btoa, atob);
    XorBranch(text, "encrypt", btoa, atob);
    var e := Substitution.XorCipher(text, XorKeyText());
    XorBranch(e, "decrypt", btoa, atob);
    AlgorithmNames("xor");
    KeysAreAsciiLetters();
    Substitution.XorKeepsNoSurrogatePairs(text, XorKeyText());
    Substitution.XorInvolution(text, XorKeyText());
  }

  /** Playfair with the key "KEYWORD" gives back upper-case, J-free, letter-only text of even
      length none of whose pairs is a doubled letter. */
  lemma PlayfairRoundTrip(text: Text, btoa: Text -> Option<Text>, atob: Text -> Option<Text>)
    requires PlayfairMatrix.SquareText(text) && |text| % 2 == 0 && Playfair.NoDoubledPair(text)
    ensures RoundTrips(text, "playfair", btoa, atob)
  {
    PlayfairMatrix.NormaliseSquareText(text);
    PlayfairBranch(text, "encrypt", btoa, atob);
    var e := Playfair.Enciphered(text, PlayfairKey());
    assert "decrypt"[0] != "encrypt"[0];
    PlayfairBranch(e, "decrypt", btoa, atob);
    Playfair.PlayfairRoundTrip(text, PlayfairKey());
  }
}
