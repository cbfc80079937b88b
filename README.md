# Cryptowarts cipher core in Dafny

This project models the part of the Cryptowarts cipher package that computes
something itself:

- the Vigenère cipher of class `CifradoVigenere`: `cifrarTexto`, `descifrarTexto`,
  its output-file naming rule `crearNombreArchivo`, and `cifrarArchivo` /
  `descifrarArchivo` seen as maps from the file read to the file written;
- from class `Cifrado` (AES/CBC/PKCS5Padding): the fixed IV, the normalisation
  of a key to 16 bytes (`normalizarClave`) and that class's own copy of
  `crearNombreArchivo`.

Modules, one per file:

- `Outcomes` (`outcomes.dfy`): `Result<T>`, which is either a value or the Java
  runtime exception the code raises (`ArithmeticException` for `i % 0`,
  `StringIndexOutOfBounds` for a bad `substring`).
- `JavaSemantics` (`java_semantics.dfy`): the Java behaviour the code relies on:
  - `%` truncating toward zero (Dafny's `%` is Euclidean);
  - `String.lastIndexOf`;
  - `substring` with its bounds check;
  - `getBytes(UTF_8)` on ASCII strings.
- `CifradoVigenere` (`cifrado_vigenere.dfy`):
  - The two loops are methods (`CifrarTexto`, `DescifrarTexto`). Each appends
    one character per index to the output. Each is proved equal to a
    specification function (`Encipher`, `Decipher`).
  - The lemmas are about those functions: round trips in both directions, the
    shift arithmetic, non-letter passthrough, key-case irrelevance, the key
    advancing on every character, and the "ATTACKATDAWN"/"LEMON" vector.
- `Cifrado` (`cifrado.dfy`):
  - Bytes are `JavaSemantics.JavaByte`, Java's signed 8-bit `byte`.
  - `NormalizarClave` allocates a zeroed 16-byte `array<JavaByte>` and copies the
    key's bytes into it in a loop, as `System.arraycopy` does. It is proved equal
    to `NormalizedKey`.
  - `CrearNombreArchivo` returns a `Result`, because `substring(0, -1)` throws on
    a name with no dot.

How the two naming rules differ:

- `CifradoVigenere.crearNombreArchivo` appends `"_" + operacion` to a name with
  no dot.
- `Cifrado.crearNombreArchivo` has no guard, so it throws on such a name.
  `cifrarArchivo` and `descifrarArchivo` then catch the exception and return
  `"Error: " + message`.
- The model keeps both rules as separate functions. Lemma
  `Cifrado.NamingRulesAgreeOnDottedNames` proves that they agree exactly on
  names that contain a dot.

How the model departs from the documentation:

- The doc comments of `cifrarTexto` and `descifrarTexto` promise a
  `GeneralSecurityException` for an empty key. The code has no such check.
  - With a non-empty text, the first `i % claveLen` throws `ArithmeticException`.
  - With an empty text, the loop never runs, and the result is `""` for any key.
- The model follows the code in both cases.

## Model

| member | source | states |
|---|---|---|
| `CifradoVigenere.CifrarTexto` | src/main/java/es/cryptowarts/cifrado/CifradoVigenere.java:27-43 | the loop returns `Encipher(text, key)`; with an empty key and a non-empty text it fails with `ArithmeticException` (the `i % 0`); an empty text succeeds with any key |
| `CifradoVigenere.DescifrarTexto` | src/main/java/es/cryptowarts/cifrado/CifradoVigenere.java:54-70 | the mirror loop returns `Decipher(text, key)`, with the same failure case |
| `CifradoVigenere.Encipher` | src/main/java/es/cryptowarts/cifrado/CifradoVigenere.java:30-41 | the ciphertext is exactly as long as the text (one character appended per index) |
| `CifradoVigenere.Decipher` | src/main/java/es/cryptowarts/cifrado/CifradoVigenere.java:57-68 | the plaintext is exactly as long as the ciphertext |
| `CifradoVigenere.EncryptChar` | src/main/java/es/cryptowarts/cifrado/CifradoVigenere.java:31-40 | a non-letter is copied; a letter under a letter key stays a letter of its own case and its alphabet place becomes (text place + key place) mod 26 |
| `CifradoVigenere.DecryptChar` | src/main/java/es/cryptowarts/cifrado/CifradoVigenere.java:58-67 | a non-letter is copied; a letter under a letter key stays a letter of its own case and its place becomes (cipher place − key place) mod 26 |
| `CifradoVigenere.IsUpper` | src/main/java/es/cryptowarts/cifrado/CifradoVigenere.java:34-35 | the ASCII stand-in for `Character.isUpperCase`: 'A' to 'Z' |
| `CifradoVigenere.IsLower` | src/main/java/es/cryptowarts/cifrado/CifradoVigenere.java:33 | the lower-case half of the letter test: 'a' to 'z' |
| `CifradoVigenere.IsLetter` | src/main/java/es/cryptowarts/cifrado/CifradoVigenere.java:33 | the ASCII stand-in for `Character.isLetter` (also at line 60): the 26 Latin letters in either case |
| `CifradoVigenere.AlphaIndex` | src/main/java/es/cryptowarts/cifrado/CifradoVigenere.java:36 | `plainChar - base` (and `keyChar - baseKey`): for a letter, its place in the alphabet, between 0 and 25 |
| `CifradoVigenere.CaseBase` | src/main/java/es/cryptowarts/cifrado/CifradoVigenere.java:34-35 | the base is 'A' or 'a', and for a letter it is 'A' exactly when the letter is upper case |
| `CifradoVigenere.DecryptEncryptChar` | src/main/java/es/cryptowarts/cifrado/CifradoVigenere.java:33-37 | one decryption step undoes one encryption step under a letter key |
| `CifradoVigenere.EncryptDecryptChar` | src/main/java/es/cryptowarts/cifrado/CifradoVigenere.java:60-64 | one encryption step undoes one decryption step under a letter key |
| `CifradoVigenere.DecipherEncipher` | src/main/java/es/cryptowarts/cifrado/CifradoVigenere.java:27-70 | `Decipher(Encipher(t, k), k) == t` for every text and every non-empty all-letter key |
| `CifradoVigenere.EncipherDecipher` | src/main/java/es/cryptowarts/cifrado/CifradoVigenere.java:27-70 | `Encipher(Decipher(c, k), k) == c` for every text and every non-empty all-letter key |
| `CifradoVigenere.NonLettersPassThrough` | src/main/java/es/cryptowarts/cifrado/CifradoVigenere.java:38-40 | every non-letter of the input appears unchanged at the same position of both outputs |
| `CifradoVigenere.LetterShift` | src/main/java/es/cryptowarts/cifrado/CifradoVigenere.java:33-37 | at index i, a letter under the letter key character `i mod len(key)` keeps its case and moves forward (encrypt) or backward (decrypt) by the key letter's place mod 26 |
| `CifradoVigenere.KeyCaseIrrelevant` | src/main/java/es/cryptowarts/cifrado/CifradoVigenere.java:35-36 | keys that differ only in the case of their letters give the same ciphertext and the same plaintext |
| `CifradoVigenere.Rotate` | src/main/java/es/cryptowarts/cifrado/CifradoVigenere.java:32 | the rotated key holds at j the key character at `(n + j) mod len(key)` |
| `CifradoVigenere.EncipherConcat` | src/main/java/es/cryptowarts/cifrado/CifradoVigenere.java:30-32 | the key advances on every character (letter or not): `Encipher(t1 + t2, k) == Encipher(t1, k) + Encipher(t2, k rotated by len(t1))` |
| `CifradoVigenere.EncipherConcatAt` | src/main/java/es/cryptowarts/cifrado/CifradoVigenere.java:30-32 | the same, at one position of `t2` |
| `CifradoVigenere.SpaceConsumesKey` | src/main/java/es/cryptowarts/cifrado/CifradoVigenere.java:30-40 | "A A" under "BC" gives "B B": the space uses up key character 'C' |
| `CifradoVigenere.LemonVector` | src/main/java/es/cryptowarts/cifrado/CifradoVigenere.java:27-70 | "ATTACKATDAWN" under "LEMON" enciphers to "LXFOPVEFRNHR" and deciphers back |
| `CifradoVigenere.LemonVectorAt` | src/main/java/es/cryptowarts/cifrado/CifradoVigenere.java:30-40 | the same vector, one position at a time |
| `CifradoVigenere.EmptyText` | src/main/java/es/cryptowarts/cifrado/CifradoVigenere.java:28-42 | the empty text gives the empty result under every key, the empty key included |
| `CifradoVigenere.CrearNombreArchivo` | src/main/java/es/cryptowarts/cifrado/CifradoVigenere.java:129-135 | the new name is always `len(n) + 1 + len(op)` long; a name with no dot gets `"_" + op` appended |
| `CifradoVigenere.NameSplitsAtExtension` | src/main/java/es/cryptowarts/cifrado/CifradoVigenere.java:130-134 | for a base and an extension (a dot followed by no other dot), the result is `base + "_" + op + extension` |
| `CifradoVigenere.NameHasExtension` | src/main/java/es/cryptowarts/cifrado/CifradoVigenere.java:130-133 | a name holding a dot splits at its last dot into a base and an extension |
| `CifradoVigenere.NameTwice` | src/main/java/es/cryptowarts/cifrado/CifradoVigenere.java:129-135 | naming with `op1` and then `op2` equals naming once with `op1 + "_" + op2` (when `op1` has no dot) |
| `CifradoVigenere.NameTwiceWithDot` | src/main/java/es/cryptowarts/cifrado/CifradoVigenere.java:132-134 | the same, for names that contain a dot |
| `CifradoVigenere.NameTwiceWithoutDot` | src/main/java/es/cryptowarts/cifrado/CifradoVigenere.java:131 | the same, for names that contain no dot |
| `CifradoVigenere.NameExamples` | src/main/java/es/cryptowarts/cifrado/CifradoVigenere.java:129-135 | "report.txt" becomes "report_cifrado.txt"; "README" becomes "README_cifrado" |
| `CifradoVigenere.LastDotExample` | src/main/java/es/cryptowarts/cifrado/CifradoVigenere.java:130-134 | "a.tar.gz" becomes "a.tar_cifrado.gz" |
| `CifradoVigenere.CifrarArchivo` | src/main/java/es/cryptowarts/cifrado/CifradoVigenere.java:83-94 | the file written lies in the same directory, is named with `_cifrado`, and holds the enciphered content; an empty key with a non-empty content fails |
| `CifradoVigenere.DescifrarArchivo` | src/main/java/es/cryptowarts/cifrado/CifradoVigenere.java:107-118 | the file written lies in the same directory, is named with `_descifrado`, and holds the deciphered content |
| `CifradoVigenere.FileRoundTrip` | src/main/java/es/cryptowarts/cifrado/CifradoVigenere.java:83-118 | deciphering the file that enciphering wrote restores the content, under the name with the suffix `_cifrado_descifrado` |
| `JavaSemantics.JavaRem` | src/main/java/es/cryptowarts/cifrado/CifradoVigenere.java:36 | Java's `%`: the remainder lies strictly between −b and b, takes the sign of the dividend, differs from the dividend by a multiple of b (so it is fixed for a negative dividend too), and agrees with the Euclidean one for a non-negative dividend |
| `JavaSemantics.LastIndexOf` | src/main/java/es/cryptowarts/cifrado/CifradoVigenere.java:130 | the result is −1 exactly when the character is absent; otherwise the string holds the character there and never after it |
| `JavaSemantics.LastIndexOfAt` | src/main/java/es/cryptowarts/cifrado/Cifrado.java:153 | a position holding the character, with no occurrence after it, is the one `lastIndexOf` returns |
| `JavaSemantics.Substring` | src/main/java/es/cryptowarts/cifrado/Cifrado.java:157 | it succeeds exactly when `0 <= begin <= end <= length`, with the characters in between; otherwise it fails with `StringIndexOutOfBounds` |
| `JavaSemantics.SubstringFrom` | src/main/java/es/cryptowarts/cifrado/Cifrado.java:158 | it succeeds exactly when `0 <= begin <= length`, giving the suffix from `begin` |
| `JavaSemantics.AsciiUtf8` | src/main/java/es/cryptowarts/cifrado/Cifrado.java:139 | an ASCII string encodes to one byte per character, each equal to the character's code |
| `Cifrado.Algoritmo` | src/main/java/es/cryptowarts/cifrado/Cifrado.java:17 | the constant transformation string "AES/CBC/PKCS5Padding" |
| `Cifrado.IV` | src/main/java/es/cryptowarts/cifrado/Cifrado.java:20 | the constant IV string "abcdefghijklmnop"; `IvIsOneBlock` gives its bytes |
| `Cifrado.IvBytes` | src/main/java/es/cryptowarts/cifrado/Cifrado.java:32 | the IV bytes are as many as the IV's characters |
| `Cifrado.IvIsOneBlock` | src/main/java/es/cryptowarts/cifrado/Cifrado.java:20 | the fixed IV is 16 bytes, 'a' (0x61) up to 'p' (0x70) |
| `Cifrado.NormalizedKey` | src/main/java/es/cryptowarts/cifrado/Cifrado.java:138-142 | the key is always 16 bytes; byte i is the key's byte i where there is one and 0 after its end |
| `Cifrado.Min` | src/main/java/es/cryptowarts/cifrado/Cifrado.java:141 | `Math.min`: the result is at most each argument and equal to one of them |
| `Cifrado.NormalizarClave` | src/main/java/es/cryptowarts/cifrado/Cifrado.java:138-143 | a fresh 16-byte array whose contents are `NormalizedKey` of the key's bytes |
| `Cifrado.ShortKeyIsPadded` | src/main/java/es/cryptowarts/cifrado/Cifrado.java:140-141 | a key of `n <= 16` bytes becomes those bytes followed by `16 − n` zero bytes |
| `Cifrado.LongKeyIsTruncated` | src/main/java/es/cryptowarts/cifrado/Cifrado.java:141 | a key of 16 bytes or more becomes exactly its first 16 bytes |
| `Cifrado.LongKeysCollide` | src/main/java/es/cryptowarts/cifrado/Cifrado.java:139-141 | two keys of 16 bytes or more normalise alike exactly when their first 16 bytes agree |
| `Cifrado.TrailingZeroCollides` | src/main/java/es/cryptowarts/cifrado/Cifrado.java:140-141 | a short key and the same key with a zero byte appended normalise alike |
| `Cifrado.EmptyKeyIsAllZero` | src/main/java/es/cryptowarts/cifrado/Cifrado.java:139-141 | the empty key is accepted and gives 16 zero bytes |
| `Cifrado.KeyExamples` | src/main/java/es/cryptowarts/cifrado/Cifrado.java:131-142 | "short" gives `s h o r t` and eleven zero bytes; "abcdefghijklmnopqrst" gives exactly its own first 16 bytes |
| `Cifrado.CrearNombreArchivo` | src/main/java/es/cryptowarts/cifrado/Cifrado.java:152-161 | it succeeds exactly when the name contains a dot, giving a name `len(n) + 1 + len(op)` long; otherwise `substring(0, -1)` fails with `StringIndexOutOfBounds` |
| `Cifrado.NamingRulesAgreeOnDottedNames` | src/main/java/es/cryptowarts/cifrado/Cifrado.java:153-160 | on a name with a dot, this class's rule gives the Vigenère class's result; on a name without one it fails, while the Vigenère rule appends the suffix |
| `Cifrado.NameSplitsAtExtension` | src/main/java/es/cryptowarts/cifrado/Cifrado.java:157-160 | for a base and an extension, the result is `base + "_" + op + extension`, so earlier dots stay in the base |
| `Cifrado.NameExamples` | src/main/java/es/cryptowarts/cifrado/Cifrado.java:145-160 | "documento.txt" becomes "documento_cifrado.txt"; "README" fails |

## Left out

- AES encryption and decryption: `Cifrado.cifrarTexto`, `descifrarTexto`,
  `cifrarArchivo` and `descifrarArchivo`. The Java library does all the work:
  `javax.crypto.Cipher` (the AES block cipher of FIPS 197, CBC mode from section
  6.2 of NIST SP 800-38A, PKCS#5/#7 padding) and `java.util.Base64`. The model
  keeps the constants `Algoritmo` and `IV` and the key normalisation.
- The error strings that those methods return after catching an exception
  (`"Error al cifrar texto: "`, `"Error: "` plus the message). They are exception
  plumbing around library calls. The naming failure that can reach them is
  modelled as `Failure(StringIndexOutOfBounds)`.
- File I/O (`Files.readString`, `readAllBytes`, `write`) and path handling
  (`File.getName`, `getParent`, `getAbsolutePath`). A file is a record of
  directory, name and content. The Vigenère file operations map the file read
  to the file written.
- UTF-8 encoding of arbitrary keys (`String.getBytes(UTF_8)`). `NormalizarClave`
  takes the key's encoded bytes as input. Only ASCII text is encoded in the model
  (`AsciiUtf8`).
- Unicode letter and case tests: the model's letter test is ASCII A–Z/a–z.
  - Java's `Character.isLetter` and `isUpperCase` are Unicode-wide. The source
    shifts a non-ASCII letter such as 'ñ' into a–z, and that does not round-trip.
    The model passes such letters through unchanged.
  - So the round-trip lemmas describe the source exactly only for texts whose
    letters are all ASCII.
- UTF-16 code units: Java strings count UTF-16 code units, so a character
  outside the Basic Multilingual Plane takes two key positions in the source.
  The model's strings count characters, so such a character takes one.
- `LetterShift`, `DecipherEncipher`, `EncipherDecipher`: nothing is claimed for a
  key character that is not an ASCII letter.
  - For an ASCII key character that is not a letter, the model computes what
    Java computes, using the truncating `%` of `JavaRem`. There
    `keyChar - baseKey` can be negative, the output can leave the alphabet, and
    the source gives no invertible result.
  - For a non-ASCII key character the model can differ from Java; see the
    `CifradoVigenere.CaseBase` line below.
- `CifradoVigenere.CaseBase`: the model measures every non-ASCII character from
  'a'. Java's Unicode-wide `Character.isUpperCase` measures a non-ASCII capital
  letter such as 'É' (U+00C9) from 'A'. So under the key "É" the text "A"
  enciphers to 'G' in the source and to 'A' in the model.
- `CifradoVigenere.CifrarTexto`: the narrowing cast `(char)(base + shift)` never
  wraps, because the value stays between 40 and 122. A `null` text or key, which
  Java rejects with an exception, cannot be expressed, since Dafny strings are
  never null.
- `src/main/java/es/cryptowarts/controladores/ControladorVentana.java`: JavaFX
  event handlers, dialogs, alerts and the file chooser. It is presentation code,
  and its key checks are UI guards.
