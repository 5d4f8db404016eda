# Cipher engine of cookies-cryptography, in Dafny

This project models the text-cipher engine in `script.js` and proves properties of the model. The
browser page of the repository calls `process(action)`, which dispatches on the selected algorithm:
- Caesar with shift 3;
- Atbash;
- text reversal;
- Vigenère with the key "KEY";
- Base64;
- single-character XOR with the key "K";
- Playfair with the key "KEYWORD".

A browser string is modelled as a sequence of UTF-16 code units (`Utf16.Text`). A code unit is an
integer below 0x10000, so every value XOR can produce is representable. JavaScript's truncating
`%` is written out as `Utf16.JsRem`.

Modules, one per part of `script.js`:
- `Utf16` holds the shared character tests and arithmetic, and `toUpperCase` for ASCII.
- `Substitution` holds the single-expression transforms: `caesarEncrypt`, `caesarDecrypt`,
  `atbash`, `reverseText` and `xorCipher`. They are functions.
- `Vigenere` holds `vigenereEncrypt` and `vigenereDecrypt`. They are methods with loops. Each is
  proved equal to a recursive specification function (`Enciphered`, `Deciphered`), and the round
  trip and the index rule are proved about those functions.
- `PlayfairMatrix` holds the Playfair text clean-up and `generatePlayfairMatrix`. The latter is a
  method whose loop keeps the `seen` dictionary as a set, proved equal to `MatrixFor`.
- `Playfair` holds `processPlayfairPair` (a function) and the two Playfair loops (methods). The
  loops take the pair rule as a function value, `PairRule(matrix, encrypt)`. Each loop is proved
  to map that rule over the pairs it visits. The Playfair methods are thus equal to `Enciphered`
  and `Deciphered`.
- `Dispatch` holds the switch of `process` as a pure function, `Process`, and the round trips
  through it.

Worked examples sit beside the definitions they exercise: the textbook Vigenère example in
`Vigenere`, the "KEYWORD" square in `PlayfairMatrix`, and HELLO under "KEYWORD" in `Playfair`.

Where the code departs from textbook Playfair and from a plain XOR involution, the model follows
the code:
- **Doubled Playfair letters.** For a doubled letter, the encryption loop pairs the first
  occurrence with 'X' and then steps over the second one. It does not re-pair the second
  occurrence, so HELLO becomes HE LX OX (`Playfair.HelloExample`). The exception is a doubled 'X':
  the loop steps by one there (`Playfair.DoubledFiller`).
- **XOR and surrogate pairs.** `xorCipher` spreads the text into code points, and `charCodeAt(0)`
  keeps only the high half of a surrogate pair. A pair therefore collapses into one unit, and the
  round trip holds only for text without surrogate pairs.

An unknown algorithm name is not an error: the switch's default case shows the text
"Unknown algorithm" (`Dispatch.Process`).

## Model

| member | source | states |
|---|---|---|
| Utf16.CaseBase | script.js:37 | `c < 'a' ? 65 : 97` is 65 for an upper-case letter and 97 for a lower-case one |
| Utf16.Pos | script.js:37 | a letter's code minus its case base is its place 0 .. 25 in the alphabet |
| Utf16.ToUpper | script.js:46 | upper-casing moves a lower-case letter to the upper-case letter at the same place and leaves every other unit alone |
| Utf16.ToLower | script.js:42 | lower-casing moves an upper-case letter to the lower-case letter at the same place and leaves every other unit alone |
| Utf16.UpperCase | script.js:46 | `toUpperCase` on ASCII text keeps the length and upper-cases unit by unit |
| Utf16.JsRem | script.js:37 | JavaScript `%` lies strictly between -b and b, equals Euclidean `%` for a non-negative dividend, and is never positive for a negative one |
| Utf16.JsRemOdd | script.js:37 | JavaScript `%` is odd in its dividend, which with the non-negative case fixes its value for a negative one |
| Utf16.JsRemNegativeExample | script.js:53 | `-1 % 26` and `-27 % 26` are -1 and `-26 % 26` is 0, where Euclidean `%` would give 25, 25 and 0 |
| Substitution.CaesarUnit | script.js:36-37 | a non-letter is left alone; for a non-negative shift a letter stays a letter of its case and its place moves forward by the shift modulo 26 |
| Substitution.CaesarEncrypt | script.js:35-38 | same length; non-letters unchanged; for a non-negative shift, each letter keeps its case and moves forward by the shift modulo 26 |
| Substitution.CaesarDecrypt | script.js:39 | same length; non-letters unchanged; for a shift 0 .. 26, each letter keeps its case and moves back by the shift modulo 26 |
| Substitution.CaesarRoundTrip | script.js:35-39 | decrypting with the same shift undoes encrypting, for every shift 0 .. 26 |
| Substitution.CaesarExample | script.js:35-39 | "abc" encrypts to "def" and "def" decrypts to "abc" |
| Substitution.AtbashUnit | script.js:41-42 | a non-letter is left alone; a letter stays a letter of its case and goes to place 25 minus its place |
| Substitution.Atbash | script.js:40-43 | same length; non-letters unchanged; each letter keeps its case and goes to place 25 minus its place |
| Substitution.AtbashInvolution | script.js:40-43 | Atbash applied twice gives every text back |
| Substitution.AtbashExample | script.js:40-43 | "Hello" becomes "Svool" |
| Substitution.ReverseText | script.js:44 | same length, and element i is element `|t| - 1 - i` of the input |
| Substitution.ReverseInvolution | script.js:44 | reversing twice gives every text back |
| Substitution.ReverseExample | script.js:44 | "Hello" becomes "olleH" |
| Substitution.BitXor | script.js:74 | the bitwise XOR of two values within `width` bits is below 2^width |
| Substitution.BitXorBits | script.js:74 | each of the low `width` bits of the XOR is 1 exactly where the bits of the two operands differ |
| Substitution.BitIsDigit | script.js:74 | bit i, as the XOR counts it, is the last binary digit of x divided by 2^i |
| Substitution.BitXorTwice | script.js:74 | XOR with the same value twice gives x back |
| Substitution.XorKey | script.js:74 | `key.charCodeAt(0)` is the key's first unit, and 0 (NaN as a bitwise operand) for the empty key |
| Substitution.XorUnit | script.js:74 | `c ^ k` on 16-bit units; a zero key unit leaves the unit alone |
| Substitution.XorUnitBitwise | script.js:74 | each of the 16 bits of `c ^ k` is 1 exactly where the bits of c and k differ |
| Substitution.XorUnitExample | script.js:74 | 'A' ^ 'K' is 10 |
| Substitution.XorUnitExampleB | script.js:74 | 'B' ^ 'K' is 9 |
| Substitution.XorUnitInvolution | script.js:74 | `c ^ k ^ k == c` for 16-bit units |
| Substitution.XorUnitKeepsClass | script.js:74 | a key unit below 0x400 keeps high surrogates, low surrogates and other units in their class |
| Substitution.XorCipher | script.js:73-75 | the result is no longer than the text, and as long exactly when the text has no surrogate pair; then unit i is text unit i XORed with the key's first unit |
| Substitution.XorExample | script.js:73-75 | "AB" under the key "K" becomes the units 10 and 9 |
| Substitution.XorInvolution | script.js:73-75 | XOR twice with the same key gives the text back when neither the text nor its encryption has surrogate pairs |
| Substitution.XorKeepsNoSurrogatePairs | script.js:73-75 | with a key unit below 0x400, text without surrogate pairs encrypts to text without surrogate pairs |
| Substitution.XorFirstKeyUnitOnly | script.js:74 | two keys with the same first unit give the same result |
| Vigenere.KeyShift | script.js:52 | the shift (computed the same way at line 66) is the key unit at `j % key.length` minus 65; it lies in 0 .. 26 when every key unit is 'A' .. 'Z' or '[' |
| Vigenere.EncipherUnit | script.js:50-53 | the empty key yields U+0000; for a non-negative shift a letter stays a letter of its case whose place is its place plus the shift, modulo 26 |
| Vigenere.DecipherUnit | script.js:64-67 | the empty key yields U+0000; for a shift of at most 26 a letter stays a letter of its case whose place is its place minus the shift, modulo 26 |
| Vigenere.LetterCount | script.js:54 | the counter (advanced the same way at line 68)'s advance over a text is at most its length, and zero exactly when the text has no letter |
| Vigenere.Enciphered | script.js:45-58 | the encryption loop's output has the text's length |
| Vigenere.Deciphered | script.js:59-72 | the decryption loop's output has the text's length |
| Vigenere.EncipheredShape | script.js:50-55 | non-letters stay where they are; under an upper-case letter key each letter becomes a letter of its own case |
| Vigenere.DecipheredShape | script.js:64-69 | the same for decryption |
| Vigenere.VigenereEncrypt | script.js:45-58 | the loop with `result` and the key counter `j` returns `Enciphered` of the text under the upper-cased key, from counter 0 |
| Vigenere.VigenereDecrypt | script.js:59-72 | the decryption loop returns `Deciphered` of the text under the upper-cased key, from counter 0 |
| Vigenere.UnitShifts | script.js:52-53 | under a key of units 'A' .. '[', one letter moves forward (encrypt) or back (decrypt) by the key letter modulo 26, keeping its case |
| Vigenere.UnitRoundTrip | script.js:53-67 | under a key of units 'A' .. '[', deciphering a letter enciphered at the same counter gives the letter back |
| Vigenere.ShiftBack | script.js:67 | adding k, then subtracting k after adding 26, modulo 26, is the identity on 0 .. 25, for every k in 0 .. 26 |
| Vigenere.RoundTripFrom | script.js:45-72 | from any counter, deciphering the enciphered text under a key of units 'A' .. '[' gives it back |
| Vigenere.VigenereRoundTrip | script.js:45-72 | for every text and every non-empty key of ASCII letters (either case) and '[', decrypting the encryption gives the text back |
| Vigenere.EncipheredAt | script.js:48-54 | the letter at position i is enciphered at the counter advanced by the number of letters before it |
| Vigenere.DecipheredAt | script.js:62-68 | the same for decryption |
| Vigenere.EncipheredAppend | script.js:48-56 | encrypting a concatenation encrypts the second part with the counter moved on by the first part's letters |
| Vigenere.LetterCountAppend | script.js:54 | the counter's advance over a concatenation is the sum of the advances |
| Vigenere.NegativeShiftLosesLetter | script.js:52-67 | under the key "@" (shift -1) the letter "A" encrypts to "@", which is not a letter, and decryption leaves "@" as it is |
| Vigenere.VigenereExample | script.js:45-58 | "ATTACKATDAWN" with the key "LEMON" encrypts to "LXFOPVEFRNHR" |
| PlayfairMatrix.SquareAlphabet | script.js:103 | the J-less alphabet has 25 letters |
| PlayfairMatrix.SquareAlphabetLiteral | script.js:103 | the J-less alphabet is the literal "ABCDEFGHIKLMNOPQRSTUVWXYZ" letter for letter |
| PlayfairMatrix.SquareAlphabetLetters | script.js:103 | the J-less alphabet has no repeats and holds exactly the letters A .. Z except J |
| PlayfairMatrix.UpperOnly | script.js:80 | `replace(/[^A-Z]/g, "")` keeps only upper-case letters and never lengthens |
| PlayfairMatrix.UpperOnlyUnit | script.js:80 | one unit is kept exactly when it is an upper-case letter |
| PlayfairMatrix.UpperOnlyAppend | script.js:80 | the filter of a concatenation is the concatenation of the filters |
| PlayfairMatrix.JToI | script.js:80 | `replace(/J/g, "I")` keeps the length and turns each J into I |
| PlayfairMatrix.Normalise | script.js:80 | the cleaned text holds only square letters |
| PlayfairMatrix.NormaliseUnit | script.js:80 | one ASCII unit is cleaned to nothing if it is not a letter, to "I" if it upper-cases to J, and to its upper case otherwise |
| PlayfairMatrix.NormaliseAppend | script.js:80 | cleaning a concatenation of ASCII texts concatenates the cleaned parts |
| PlayfairMatrix.NormaliseExample | script.js:80 | "Hide the gold!" is cleaned to "HIDETHEGOLD" |
| PlayfairMatrix.NormaliseSquareText | script.js:80 | cleaning a text of square letters leaves it unchanged |
| PlayfairMatrix.UpperOnlyUpperText | script.js:80 | text of upper-case letters passes the letter filter unchanged |
| PlayfairMatrix.FirstOccurrences | script.js:101-108 | what the loop with `seen` pushes is no longer than its input and begins with the input's first unit |
| PlayfairMatrix.FirstOccurrencesElements | script.js:101-108 | what the loop with `seen` keeps has the same elements as its input and no repeats |
| PlayfairMatrix.FirstOccurrencesPrefix | script.js:103-108 | de-duplicating a + b begins with de-duplicated a |
| PlayfairMatrix.FirstOccurrencesOfDistinct | script.js:103-108 | input without repeats passes the `seen` loop unchanged |
| PlayfairMatrix.FirstOccurrencesAppend | script.js:101-108 | de-duplicating a + b is de-duplicated a followed by de-duplicated b without a's units |
| PlayfairMatrix.OmittingElements | script.js:103-108 | the units of b left after dropping a's are exactly those in b and not in a |
| PlayfairMatrix.OmittingDistinct | script.js:103-108 | dropping units from a text without repeats leaves a text without repeats |
| PlayfairMatrix.MatrixFor | script.js:99-110 | the square is the cleaned key's letters in order of first occurrence, then the rest of the J-less alphabet in alphabetical order |
| PlayfairMatrix.KeywordMatrix | script.js:99-110 | the key "KEYWORD" gives the square KEYWORDABCFGHILMNPQSTUVXZ |
| PlayfairMatrix.MatrixForValid | script.js:99-110 | every key gives 25 distinct letters that are exactly A .. Z without J, starting with the key's distinct letters in order of first occurrence |
| PlayfairMatrix.GeneratePlayfairMatrix | script.js:99-110 | the loop with the `seen` set returns the matrix for the key, and it has 25 cells |
| Playfair.IndexOf | script.js:112-113 | `indexOf` returns a position holding the letter, with no earlier one |
| Playfair.IndexOfDistinct | script.js:112-113 | in a square without repeats, looking up the letter at k gives k |
| Playfair.Row | script.js:114-115 | `Math.floor(idx / 5)`: the row r with 5r <= idx < 5r + 5 |
| Playfair.Col | script.js:114-115 | `idx % 5`: the column below 5 with idx equal to 5 times the row plus the column |
| Playfair.Cell | script.js:119-126 | `matrix[row * 5 + col]` is a letter of the square, and in a square without repeats it is found again at that row and column |
| Playfair.Locate | script.js:112-115 | the rows and columns of both letters lie in 0 .. 4 |
| Playfair.Moved | script.js:118-127 | the moved coordinates stay inside the square |
| Playfair.MovedSameRow | script.js:118-120 | a same-row pair stays in its row and moves one column right on encryption and one column left on decryption, wrapping around |
| Playfair.MovedSameColumn | script.js:121-123 | a same-column pair stays in its column and moves one row down on encryption and one row up on decryption, wrapping around |
| Playfair.MovedRoundTrip | script.js:118-127 | moving keeps the same-row, same-column or rectangle placement, and moving the other way undoes it |
| Playfair.ProcessPair | script.js:111-129 | the pair rule returns two letters of the square |
| Playfair.PairRoundTrip | script.js:111-129 | with a valid square, applying the rule in the other direction to the output gives the pair back, and the output has the input's placement |
| Playfair.ProcessPairMoves | script.js:111-129 | the output letters sit at the input pair's moved coordinates |
| Playfair.RectangleKeepsRows | script.js:124-127 | for a rectangle, each output letter stays in its input letter's row and the columns are swapped |
| Playfair.PairRule | script.js:86-95 | the rule maps two letters of the square to two letters of the square, and anything else to the empty text |
| Playfair.PairRuleInverse | script.js:111-129 | the rule in each direction maps pairs of square letters to pairs of square letters, and the other direction undoes it |
| Playfair.MapPairs | script.js:81-97 | mapping a rule that yields two units per pair keeps the length |
| Playfair.MapPairsInside | script.js:83-88 | applying a pair rule that keeps letters in a set, pair by pair, keeps the length and the set |
| Playfair.MapPairsInverse | script.js:83-98 | when one pair rule undoes another, the pair-by-pair mappings undo each other |
| Playfair.Digraphs | script.js:83-88 | the paired text has even length, and each of its units is the filler X or a unit of the cleaned text |
| Playfair.DigraphsShape | script.js:83-88 | the text the loop pairs up has even length, and consists of square letters when the cleaned text does |
| Playfair.DoubledLetter | script.js:85-87 | a doubled letter other than X is paired with X, and the loop goes on after the repeat |
| Playfair.DoubledFiller | script.js:85-87 | a doubled X is paired with the filler X, and the loop moves on by one |
| Playfair.DistinctPairStep | script.js:85-87 | two different neighbours are paired as they stand, and the loop moves on by two |
| Playfair.LoneLetter | script.js:85 | a lone last letter is paired with the filler X, and nothing follows |
| Playfair.DigraphsIdentity | script.js:83-88 | text of even length without doubled pairs is paired as it stands |
| Playfair.HelloExample | script.js:83-88 | HELLO is paired as HE LX OX |
| Playfair.HelloCipher | script.js:78-90 | HELLO encrypts to GYIZWZ under the key "KEYWORD" |
| Playfair.KeywordLinePairs | script.js:111-123 | under "KEYWORD", the row pair KE encrypts to EY and EY decrypts to KE, and the column pair KR encrypts to RF |
| Playfair.Enciphered | script.js:78-90 | the ciphertext has even length and holds only square letters |
| Playfair.Deciphered | script.js:91-98 | the plaintext has the ciphertext's length and holds only square letters |
| Playfair.DecryptsToDigraphs | script.js:78-98 | decrypting the encryption gives the cleaned plaintext with its fillers |
| Playfair.PlayfairRoundTrip | script.js:78-98 | for upper-case, J-free, letter-only text of even length with no doubled pair, decrypting the encryption gives the text back, under every ASCII key |
| Playfair.PlayfairEncrypt | script.js:78-90 | playfairEncrypt returns `Enciphered` of text and key |
| Playfair.EncryptPairs | script.js:81-89 | the variable-step loop over the cleaned text appends the pair rule's output for each of its digraphs, in order |
| Playfair.PlayfairDecrypt | script.js:91-98 | playfairDecrypt returns `Deciphered` of text and key |
| Playfair.DecryptPairs | script.js:93-97 | the stride-two loop appends the pair rule's output for each pair of the text, in order |
| Playfair.MapPairsSuffix | script.js:94-95 | from an even position, the pairs are the pair there followed by those two places on |
| Dispatch.KeysSpelled | script.js:18-27 | the hard-wired keys are "KEY", "K" and "KEYWORD" |
| Dispatch.KeysAreAsciiLetters | script.js:18-27 | the keys are ASCII, "KEY" is a non-empty letter key, and the XOR key unit is below 0x400 |
| Dispatch.AlgorithmNamed | script.js:7-31 | the default case is chosen exactly for a name other than the seven option values |
| Dispatch.Accepts | script.js:26-27 | every text is accepted by every algorithm but playfair, and by playfair's encryption when it is ASCII; decryption of odd-length text is refused exactly for playfair |
| Dispatch.AlgorithmNames | script.js:7-31 | each algorithm name selects its own case, and exactly the other names select the default |
| Dispatch.CaesarBranch | script.js:8-10 | the caesar case is Caesar with shift 3, forward on "encrypt" and back on every other action |
| Dispatch.VigenereBranch | script.js:17-19 | the vigenere case is Vigenère under the key "KEY" from counter 0, encrypting on "encrypt" and decrypting otherwise |
| Dispatch.InvolutionBranches | script.js:11-16 | the atbash case is Atbash and the reverse case is reversal, whatever the action |
| Dispatch.Process | script.js:7-31 | every algorithm except base64 produces output; an unknown one produces "Unknown algorithm" |
| Dispatch.XorBranch | script.js:23-25 | the xor case is `xorCipher(text, "K")` whatever the action |
| Dispatch.PlayfairBranch | script.js:26-28 | the playfair case encrypts with "KEYWORD" on "encrypt" and decrypts with it otherwise |
| Dispatch.ShiftCiphersRoundTrip | script.js:8-19 | through the switch, "decrypt" after "encrypt" gives every text back for caesar and vigenere |
| Dispatch.InvolutionsRoundTrip | script.js:11-16 | atbash and reverse ignore the action, and "decrypt" after "encrypt" gives every text back |
| Dispatch.XorRoundTrip | script.js:23-25 | xor ignores the action and round-trips every text without surrogate pairs |
| Dispatch.PlayfairRoundTrip | script.js:26-28 | playfair round-trips upper-case, J-free, letter-only text of even length without doubled pairs |

## Left out

- The page around the engine is not modelled: reading the input and the select (script.js:3-4),
  writing the output (script.js:32), file upload and download (script.js:131-146), and
  `showInfo`/`showTest` (script.js:148-178). They are browser I/O with no cipher logic.
- Base64 is not modelled. `btoa` and `atob` are browser built-ins whose code is not in the
  repository, so `Dispatch.Process` takes them as parameters. They return `None` where the browser
  would throw.
- Unicode case mapping beyond ASCII is not modelled. `Utf16.UpperCase` requires ASCII text, so
  the Vigenère key, the Playfair key and the Playfair plaintext must be ASCII. Full
  `toUpperCase` can change the length ('ß' becomes "SS").
- Playfair.Deciphered: requires text of even length made of square letters. On other input the
  code feeds `undefined` or an `indexOf` of -1 to the pair rule, which the model does not follow.
  `Dispatch.Accepts` carries this requirement to the switch.
- Playfair.PairRule: a letter outside the square, which the code would look up as position -1,
  is sent to the empty text. The requirements above keep every such call out of reach.
- Vigenere.VigenereRoundTrip: the round trip is stated for non-empty keys of ASCII letters and
  '[' (shift 26). With an empty key the code computes NaN and produces U+0000 for every letter,
  which `EncipherUnit` models. Any other key unit gives a negative shift, where a letter can become
  a non-letter (`NegativeShiftLosesLetter`), or a shift of 27 or more, where decryption's `+ 26`
  leaves a negative dividend. Some letter then fails to come back.
- Substitution.BitXor: its own contract gives only the bound. The bit-by-bit meaning is the lemma
  `BitXorBits`, because a quantified ensures on this recursive function is instantiated at every
  unfolding and makes each caller's proof far more expensive.
- Substitution.XorUnit: its own contract states only the zero-key case, for the same reason. That
  each bit of the result is the XOR of the operands' bits is the lemma `XorUnitBitwise`.
- Substitution.XorInvolution: stated only for text that has no surrogate pairs before or after
  encryption. The code-point walk of `xorCipher` collapses each surrogate pair into one unit, so
  such text cannot round-trip.
- Code units are the model's unit of text throughout. The code's regular expressions and
  indexing work on code units too, except `xorCipher`'s spread, which `Substitution.XorCipher`
  models on code points. The `for … of` over the key and the alphabet in
  `generatePlayfairMatrix` also walks code points, but by then the key holds only A..Z, where
  code points and code units agree.
