/** The Vigenère cipher of class CifradoVigenere: the text transforms
    (`cifrarTexto`, `descifrarTexto`), the output-file naming rule
    (`crearNombreArchivo`) and the file operations as pure maps from an input
    file to the file they write. */
module CifradoVigenere {
  import opened Outcomes
  import opened JavaSemantics

  // ---------------------------------------------------------------------------
  // Characters

  predicate IsUpper(c: char) { 'A' <= c <= 'Z' }
  predicate IsLower(c: char) { 'a' <= c <= 'z' }

  /** The cipher's alphabet: the 26 Latin letters in either case. */
  predicate IsLetter(c: char) { IsUpper(c) || IsLower(c) }

  /** The base the source measures a character against: 'A' for an upper-case
      character, 'a' for every other one (letter or not). */
  function CaseBase(c: char): (b: char)
    ensures b == 'A' || b == 'a'
    ensures IsLetter(c) ==> (b == 'A' <==> IsUpper(c))
  {
    if IsUpper(c) then 'A' else 'a'
  }

  /** The offset of a character from its case base; for a letter, its place in the alphabet. */
  function AlphaIndex(c: char): (n: int)
    ensures IsLetter(c) ==> 0 <= n < 26
  {
    c as int - CaseBase(c) as int
  }

  /** The same letter, possibly in the other case. */
  predicate SameLetterIgnoringCase(a: char, b: char) {
    IsLetter(a) && IsLetter(b) && AlphaIndex(a) == AlphaIndex(b)
  }

  /** One step of the encryption loop: text character `p` under key character `k`. */
  function EncryptChar(p: char, k: char): (r: char)
    ensures !IsLetter(p) ==> r == p
    ensures IsLetter(p) && IsLetter(k) ==>
              IsLetter(r) && (IsUpper(r) <==> IsUpper(p))
              && AlphaIndex(r) == (AlphaIndex(p) + AlphaIndex(k)) % 26
  {
    if IsLetter(p) then
      var base := CaseBase(p);
      var baseKey := CaseBase(k);
      var shift := JavaRem(p as int - base as int + (k as int - baseKey as int), 26);
      (base as int + shift) as char
    else
      p
  }

  /** One step of the decryption loop: cipher character `c` under key character `k`. */
  function DecryptChar(c: char, k: char): (r: char)
    ensures !IsLetter(c) ==> r == c
    ensures IsLetter(c) && IsLetter(k) ==>
              IsLetter(r) && (IsUpper(r) <==> IsUpper(c))
              && AlphaIndex(r) == (AlphaIndex(c) - AlphaIndex(k)) % 26
  {
    if IsLetter(c) then
      var base := CaseBase(c);
      var baseKey := CaseBase(k);
      var shift := JavaRem(c as int - base as int - (k as int - baseKey as int) + 26, 26);
      (base as int + shift) as char
    else
      c
  }

  lemma DecryptEncryptChar(p: char, k: char)
    requires IsLetter(k)
    ensures DecryptChar(EncryptChar(p, k), k) == p
  {
    if IsLetter(p) {
      var a, b := AlphaIndex(p), AlphaIndex(k);
      var e := EncryptChar(p, k);
      if a + b < 26 {
        assert AlphaIndex(e) == a + b;
      } else {
        assert AlphaIndex(e) == a + b - 26;
      }
      assert AlphaIndex(DecryptChar(e, k)) == a;
    }
  }

  lemma EncryptDecryptChar(c: char, k: char)
    requires IsLetter(k)
    ensures EncryptChar(DecryptChar(c, k), k) == c
  {
    if IsLetter(c) {
      var a, b := AlphaIndex(c), AlphaIndex(k);
      var d := DecryptChar(c, k);
      if a - b >= 0 {
        assert AlphaIndex(d) == a - b;
      } else {
        assert AlphaIndex(d) == a - b + 26;
      }
      assert AlphaIndex(EncryptChar(d, k)) == a;
    }
  }

  // ---------------------------------------------------------------------------
  // Whole texts

  /** The loops compute `i % |clave|` on every character, so a key can be empty
      only when the text is. */
  predicate KeyUsable(text: string, key: string) {
    key != [] || text == []
  }

  /** A key the round trip holds for: non-empty and made only of letters. */
  predicate LetterKey(key: string) {
    key != [] && forall i :: 0 <= i < |key| ==> IsLetter(key[i])
  }

  /** What `cifrarTexto` returns: character `i` is enciphered with key character `i % |key|`. */
  function Encipher(text: string, key: string): (r: string)
    requires KeyUsable(text, key)
    ensures |r| == |text|
  {
    seq(|text|, i requires 0 <= i < |text| => EncryptChar(text[i], key[i % |key|]))
  }

  /** What `descifrarTexto` returns: character `i` is deciphered with key character `i % |key|`. */
  function Decipher(text: string, key: string): (r: string)
    requires KeyUsable(text, key)
    ensures |r| == |text|
  {
    seq(|text|, i requires 0 <= i < |text| => DecryptChar(text[i], key[i % |key|]))
  }

  /** `cifrarTexto`: builds the output one character per index. An empty key makes
      `i % claveLen` throw on the first character; an empty text never reaches it. */
  method CifrarTexto(textoPlano: string, clave: string) returns (r: Result<string>)
    ensures KeyUsable(textoPlano, clave) ==> r == Success(Encipher(textoPlano, clave))
    ensures !KeyUsable(textoPlano, clave) ==> r == Failure(ArithmeticException)
  {
    var cifrado: string := [];
    var claveLen := |clave|;
    for i := 0 to |textoPlano|
      invariant claveLen > 0 || i == 0
      invariant |cifrado| == i
      invariant forall j :: 0 <= j < i ==> cifrado[j] == EncryptChar(textoPlano[j], clave[j % claveLen])
    {
      var plainChar := textoPlano[i];
      if claveLen == 0 {
        return Failure(ArithmeticException);
      }
      var keyChar := clave[i % claveLen];
      if IsLetter(plainChar) {
        var base := CaseBase(plainChar);
        var baseKey := CaseBase(keyChar);
        var shift := JavaRem(plainChar as int - base as int + (keyChar as int - baseKey as int), 26);
        cifrado := cifrado + [(base as int + shift) as char];
      } else {
        cifrado := cifrado + [plainChar];
      }
    }
    if claveLen > 0 {
      assert cifrado == Encipher(textoPlano, clave);
    }
    return Success(cifrado);
  }

  /** `descifrarTexto`: the mirror image of `CifrarTexto`. */
  method DescifrarTexto(textoCifrado: string, clave: string) returns (r: Result<string>)
    ensures KeyUsable(textoCifrado, clave) ==> r == Success(Decipher(textoCifrado, clave))
    ensures !KeyUsable(textoCifrado, clave) ==> r == Failure(ArithmeticException)
  {
    var descifrado: string := [];
    var claveLen := |clave|;
    for i := 0 to |textoCifrado|
      invariant claveLen > 0 || i == 0
      invariant |descifrado| == i
      invariant forall j :: 0 <= j < i ==> descifrado[j] == DecryptChar(textoCifrado[j], clave[j % claveLen])
    {
      var encChar := textoCifrado[i];
      if claveLen == 0 {
        return Failure(ArithmeticException);
      }
      var keyChar := clave[i % claveLen];
      if IsLetter(encChar) {
        var base := CaseBase(encChar);
        var baseKey := CaseBase(keyChar);
        var shift := JavaRem(encChar as int - base as int - (keyChar as int - baseKey as int) + 26, 26);
        descifrado := descifrado + [(base as int + shift) as char];
      } else {
        descifrado := descifrado + [encChar];
      }
    }
    if claveLen > 0 {
      assert descifrado == Decipher(textoCifrado, clave);
    }
    return Success(descifrado);
  }

  // ---------------------------------------------------------------------------
  // Properties of the text transforms

  /** Deciphering undoes enciphering, for every text and every letter key. */
  lemma {:induction false} DecipherEncipher(text: string, key: string)
    requires LetterKey(key)
    ensures Decipher(Encipher(text, key), key) == text
  {
    var e := Encipher(text, key);
    forall i | 0 <= i < |text|
      ensures Decipher(e, key)[i] == text[i]
    {
      DecryptEncryptChar(text[i], key[i % |key|]);
    }
  }

  /** Enciphering undoes deciphering, for every text and every letter key. */
  lemma {:induction false} EncipherDecipher(text: string, key: string)
    requires LetterKey(key)
    ensures Encipher(Decipher(text, key), key) == text
  {
    var d := Decipher(text, key);
    forall i | 0 <= i < |text|
      ensures Encipher(d, key)[i] == text[i]
    {
      EncryptDecryptChar(text[i], key[i % |key|]);
    }
  }

  /** Non-letters of the text come out unchanged, at the same position, both ways. */
  lemma NonLettersPassThrough(text: string, key: string)
    requires KeyUsable(text, key)
    ensures forall i :: 0 <= i < |text| && !IsLetter(text[i]) ==>
              Encipher(text, key)[i] == text[i] && Decipher(text, key)[i] == text[i]
  {
  }

  /** A letter of the text under a letter of the key stays a letter of the same
      case and moves forward (encryption) or backward (decryption) in the
      alphabet by the key letter's place. */
  lemma LetterShift(text: string, key: string, i: nat)
    requires KeyUsable(text, key) && i < |text|
    requires IsLetter(text[i]) && IsLetter(key[i % |key|])
    ensures var e := Encipher(text, key)[i];
            IsLetter(e) && (IsUpper(e) <==> IsUpper(text[i]))
            && AlphaIndex(e) == (AlphaIndex(text[i]) + AlphaIndex(key[i % |key|])) % 26
    ensures var d := Decipher(text, key)[i];
            IsLetter(d) && (IsUpper(d) <==> IsUpper(text[i]))
            && AlphaIndex(d) == (AlphaIndex(text[i]) - AlphaIndex(key[i % |key|])) % 26
  {
  }

  /** Only the alphabet position of a key letter matters, not its case. */
  lemma {:induction false} KeyCaseIrrelevant(text: string, k1: string, k2: string)
    requires k1 != [] && |k1| == |k2|
    requires forall i :: 0 <= i < |k1| ==> k1[i] == k2[i] || SameLetterIgnoringCase(k1[i], k2[i])
    ensures Encipher(text, k1) == Encipher(text, k2)
    ensures Decipher(text, k1) == Decipher(text, k2)
  {
    forall i | 0 <= i < |text|
      ensures Encipher(text, k1)[i] == Encipher(text, k2)[i]
      ensures Decipher(text, k1)[i] == Decipher(text, k2)[i]
    {
      var j := i % |k1|;
      assert k1[j] == k2[j] || SameLetterIgnoringCase(k1[j], k2[j]);
      KeyCaseIrrelevantChar(text[i], k1[j], k2[j]);
    }
  }

  lemma KeyCaseIrrelevantChar(c: char, k1: char, k2: char)
    requires k1 == k2 || SameLetterIgnoringCase(k1, k2)
    ensures EncryptChar(c, k1) == EncryptChar(c, k2)
    ensures DecryptChar(c, k1) == DecryptChar(c, k2)
  {
  }

  /** The key starting at position `n % |key|` and wrapping around. */
  function Rotate(key: string, n: nat): (r: string)
    requires key != []
    ensures |r| == |key|
    ensures forall j :: 0 <= j < |key| ==> r[j] == key[(n + j) % |key|]
  {
    var m := n % |key|;
    var r := key[m..] + key[..m];
    assert forall j :: 0 <= j < |key| ==> r[j] == key[(n + j) % |key|] by {
      forall j | 0 <= j < |key| ensures r[j] == key[(n + j) % |key|] {
        ModSum(n, j, |key|);
      }
    }
    r
  }

  /** (n + j) % L, written through the remainder of n. */
  lemma ModSum(n: nat, j: nat, len: nat)
    requires j < len
    ensures (n + j) % len == if n % len + j < len then n % len + j else n % len + j - len
  {
    var q, m := n / len, n % len;
    assert n + j == q * len + (m + j);
    if m + j < len {
      ModUnique(n + j, q, m + j, len);
    } else {
      assert (q + 1) * len == q * len + len;
      ModUnique(n + j, q + 1, m + j - len, len);
    }
  }

  /** The key advances on every character of the text, letter or not: enciphering
      `t1 + t2` enciphers `t2` with the key rotated by the whole length of `t1`. */
  lemma {:induction false} EncipherConcat(t1: string, t2: string, key: string)
    requires key != []
    ensures Encipher(t1 + t2, key) == Encipher(t1, key) + Encipher(t2, Rotate(key, |t1|))
  {
    var whole, joined := Encipher(t1 + t2, key), Encipher(t1, key) + Encipher(t2, Rotate(key, |t1|));
    forall k | 0 <= k < |whole|
      ensures whole[k] == joined[k]
    {
      EncipherConcatIndex(t1, t2, key, k);
    }
  }

  lemma EncipherConcatIndex(t1: string, t2: string, key: string, k: nat)
    requires key != [] && k < |t1| + |t2|
    ensures Encipher(t1 + t2, key)[k] == (Encipher(t1, key) + Encipher(t2, Rotate(key, |t1|)))[k]
  {
    if k < |t1| {
      EncipherConcatPrefixAt(t1, t2, key, k);
    } else {
      EncipherConcatAt(t1, t2, key, k - |t1|);
    }
  }

  lemma EncipherConcatPrefixAt(t1: string, t2: string, key: string, i: nat)
    requires key != [] && i < |t1|
    ensures Encipher(t1 + t2, key)[i] == Encipher(t1, key)[i]
  {
    var kc := key[i % |key|];
    assert (t1 + t2)[i] == t1[i];
    assert Encipher(t1 + t2, key)[i] == EncryptChar(t1[i], kc);
    assert Encipher(t1, key)[i] == EncryptChar(t1[i], kc);
  }

  lemma EncipherConcatAt(t1: string, t2: string, key: string, j: nat)
    requires key != [] && j < |t2|
    ensures Encipher(t1 + t2, key)[|t1| + j] == Encipher(t2, Rotate(key, |t1|))[j]
  {
    var len, rot := |key|, Rotate(key, |t1|);
    var kc := key[(|t1| + j) % len];
    RotatedKeyAt(key, |t1|, j);
    assert (t1 + t2)[|t1| + j] == t2[j];
    assert Encipher(t1 + t2, key)[|t1| + j] == EncryptChar(t2[j], kc);
    assert Encipher(t2, rot)[j] == EncryptChar(t2[j], rot[j % len]);
  }

  /** Position `j` of the text meets `Rotate(key, n)[j % L]`, which is `key[(n + j) % L]`. */
  lemma RotatedKeyAt(key: string, n: nat, j: nat)
    requires key != []
    ensures Rotate(key, n)[j % |key|] == key[(n + j) % |key|]
  {
    var len := |key|;
    var jm := j % len;
    assert 0 <= jm < len;
    ModSplit(n, j, len);
    assert Rotate(key, n)[jm] == key[(n + jm) % len];
  }

  /** (a + j) % L == (a + j % L) % L. */
  lemma ModSplit(a: nat, j: nat, len: nat)
    requires len > 0
    ensures (a + j) % len == (a + j % len) % len
  {
    var qj, rj := j / len, j % len;
    var qs, rs := (a + rj) / len, (a + rj) % len;
    assert a + rj == qs * len + rs;
    assert (qj + qs) * len == qj * len + qs * len;
    ModUnique(a + j, qj + qs, rs, len);
  }

  /** The classic test vector: "ATTACKATDAWN" under "LEMON". */
  lemma LemonVector()
    ensures Encipher("ATTACKATDAWN", "LEMON") == "LXFOPVEFRNHR"
    ensures Decipher("LXFOPVEFRNHR", "LEMON") == "ATTACKATDAWN"
  {
    var t, k, c := "ATTACKATDAWN", "LEMON", "LXFOPVEFRNHR";
    var e := Encipher(t, k);
    forall i | 0 <= i < 12 ensures e[i] == c[i] {
      LemonVectorAt(i);
    }
    DecipherEncipher(t, k);
  }

  lemma LemonVectorAt(i: nat)
    requires i < 12
    ensures Encipher("ATTACKATDAWN", "LEMON")[i] == "LXFOPVEFRNHR"[i]
  {
    var t, k, c := "ATTACKATDAWN", "LEMON", "LXFOPVEFRNHR";
    if i < 5 {
      ModUnique(i, 0, i, 5);
    } else if i < 10 {
      ModUnique(i, 1, i - 5, 5);
    } else {
      ModUnique(i, 2, i - 10, 5);
    }
    assert Encipher(t, k)[i] == EncryptChar(t[i], k[i % 5]);
  }

  /** A space still uses up a key character: the second 'A' meets key 'B' again. */
  lemma SpaceConsumesKey()
    ensures Encipher("A A", "BC") == "B B"
  {
  }

  /** With an empty text any key, even the empty one, gives the empty result. */
  lemma EmptyText(key: string)
    ensures Encipher("", key) == "" && Decipher("", key) == ""
  {
  }

  // ---------------------------------------------------------------------------
  // Output file names

  /** `crearNombreArchivo` of this class: `_` and the operation go before the
      last dot; a name without a dot gets them appended. */
  function CrearNombreArchivo(nombreOriginal: string, operacion: string): (r: string)
    ensures |r| == |nombreOriginal| + 1 + |operacion|
    ensures '.' !in nombreOriginal ==> r == nombreOriginal + "_" + operacion
  {
    var indicePunto := LastIndexOf(nombreOriginal, '.');
    if indicePunto == -1 then
      nombreOriginal + "_" + operacion
    else
      nombreOriginal[..indicePunto] + "_" + operacion + nombreOriginal[indicePunto..]
  }

  /** An extension: a dot followed by no further dot. */
  predicate IsExtension(ext: string) {
    ext != [] && ext[0] == '.' && '.' !in ext[1..]
  }

  /** Splitting a name into a base and its extension, the suffix goes between
      them; dots in the base stay where they are. */
  lemma {:induction false} NameSplitsAtExtension(base: string, ext: string, operacion: string)
    requires IsExtension(ext)
    ensures CrearNombreArchivo(base + ext, operacion) == base + "_" + operacion + ext
  {
    var n := base + ext;
    assert n[|base| + 1..] == ext[1..];
    LastIndexOfAt(n, '.', |base|);
    assert n[..|base|] == base && n[|base|..] == ext;
  }

  /** Every name holding a dot splits that way, at its last dot. */
  lemma {:induction false} NameHasExtension(nombre: string)
    requires '.' in nombre
    ensures IsExtension(nombre[LastIndexOf(nombre, '.')..])
    ensures nombre == nombre[..LastIndexOf(nombre, '.')] + nombre[LastIndexOf(nombre, '.')..]
  {
    var p := LastIndexOf(nombre, '.');
    assert nombre[p..][1..] == nombre[p + 1..];
  }

  /** Naming twice nests the suffixes before the same extension (or at the end). */
  lemma {:induction false} NameTwice(nombre: string, op1: string, op2: string)
    requires '.' !in op1
    ensures CrearNombreArchivo(CrearNombreArchivo(nombre, op1), op2)
         == CrearNombreArchivo(nombre, op1 + "_" + op2)
  {
    if '.' in nombre {
      NameTwiceWithDot(nombre, op1, op2);
    } else {
      NameTwiceWithoutDot(nombre, op1, op2);
    }
  }

  lemma {:induction false} NameTwiceWithDot(nombre: string, op1: string, op2: string)
    requires '.' in nombre
    ensures CrearNombreArchivo(CrearNombreArchivo(nombre, op1), op2)
         == CrearNombreArchivo(nombre, op1 + "_" + op2)
  {
    NameHasExtension(nombre);
    var p := LastIndexOf(nombre, '.');
    var base, ext := nombre[..p], nombre[p..];
    assert nombre == base + ext;
    NameTwiceSplit(base, ext, op1, op2);
  }

  lemma {:induction false} NameTwiceSplit(base: string, ext: string, op1: string, op2: string)
    requires IsExtension(ext)
    ensures CrearNombreArchivo(CrearNombreArchivo(base + ext, op1), op2)
         == CrearNombreArchivo(base + ext, op1 + "_" + op2)
  {
    var mid := base + "_" + op1;
    assert CrearNombreArchivo(base + ext, op1) == mid + ext by {
      NameSplitsAtExtension(base, ext, op1);
    }
    assert CrearNombreArchivo(mid + ext, op2) == mid + "_" + op2 + ext by {
      NameSplitsAtExtension(mid, ext, op2);
    }
    assert CrearNombreArchivo(base + ext, op1 + "_" + op2) == base + "_" + (op1 + "_" + op2) + ext by {
      NameSplitsAtExtension(base, ext, op1 + "_" + op2);
    }
    SuffixesNest(base, op1, op2, ext);
  }

  /** String concatenation regroups: the two suffixes read as one. */
  lemma SuffixesNest(base: string, op1: string, op2: string, ext: string)
    ensures base + "_" + op1 + "_" + op2 + ext == base + "_" + (op1 + "_" + op2) + ext
  {
  }

  lemma {:induction false} NameTwiceWithoutDot(nombre: string, op1: string, op2: string)
    requires '.' !in nombre && '.' !in op1
    ensures CrearNombreArchivo(CrearNombreArchivo(nombre, op1), op2)
         == CrearNombreArchivo(nombre, op1 + "_" + op2)
  {
    var once := nombre + "_" + op1;
    assert '.' !in once by {
      forall i | 0 <= i < |once| ensures once[i] != '.' {
        if i < |nombre| {
          assert once[i] == nombre[i];
        } else if i > |nombre| {
          assert once[i] == op1[i - |nombre| - 1];
        }
      }
    }
    assert once + "_" + op2 == nombre + "_" + (op1 + "_" + op2);
  }

  lemma NameExamples()
    ensures CrearNombreArchivo("report.txt", "cifrado") == "report_cifrado.txt"
    ensures CrearNombreArchivo("README", "cifrado") == "README_cifrado"
  {
    DottedNameExample();
    UndottedNameExample();
  }

  lemma DottedNameExample()
    ensures CrearNombreArchivo("report.txt", "cifrado") == "report_cifrado.txt"
  {
    assert ".txt"[1..] == "txt";
    NameSplitsAtExtension("report", ".txt", "cifrado");
    assert "report" + ".txt" == "report.txt";
    assert "report" + "_" + "cifrado" + ".txt" == "report_cifrado.txt";
  }

  lemma UndottedNameExample()
    ensures CrearNombreArchivo("README", "cifrado") == "README_cifrado"
  {
    assert '.' !in "README";
    assert "README" + "_" + "cifrado" == "README_cifrado";
  }

  /** Only the last dot counts: earlier dots stay in the base. */
  lemma LastDotExample()
    ensures CrearNombreArchivo("a.tar.gz", "cifrado") == "a.tar_cifrado.gz"
  {
    assert ".gz"[1..] == "gz";
    NameSplitsAtExtension("a.tar", ".gz", "cifrado");
    assert "a.tar" + ".gz" == "a.tar.gz";
    assert "a.tar" + "_" + "cifrado" + ".gz" == "a.tar_cifrado.gz";
  }

  // ---------------------------------------------------------------------------
  // File operations

  /** A file as the file operations see it: its directory, its name and its
      whole content read as text. */
  datatype Archivo = Archivo(directorio: string, nombre: string, contenido: string)

  /** `cifrarArchivo`: the enciphered content, in a sibling file named with `_cifrado`. */
  method CifrarArchivo(archivo: Archivo, clave: string) returns (r: Result<Archivo>)
    ensures KeyUsable(archivo.contenido, clave) ==>
              r == Success(Archivo(archivo.directorio, CrearNombreArchivo(archivo.nombre, "cifrado"),
                                   Encipher(archivo.contenido, clave)))
    ensures !KeyUsable(archivo.contenido, clave) ==> r == Failure(ArithmeticException)
  {
    var cifrado :- CifrarTexto(archivo.contenido, clave);
    var nuevoNombre := CrearNombreArchivo(archivo.nombre, "cifrado");
    return Success(Archivo(archivo.directorio, nuevoNombre, cifrado));
  }

  /** `descifrarArchivo`: the deciphered content, in a sibling file named with `_descifrado`. */
  method DescifrarArchivo(archivo: Archivo, clave: string) returns (r: Result<Archivo>)
    ensures KeyUsable(archivo.contenido, clave) ==>
              r == Success(Archivo(archivo.directorio, CrearNombreArchivo(archivo.nombre, "descifrado"),
                                   Decipher(archivo.contenido, clave)))
    ensures !KeyUsable(archivo.contenido, clave) ==> r == Failure(ArithmeticException)
  {
    var descifrado :- DescifrarTexto(archivo.contenido, clave);
    var nuevoNombre := CrearNombreArchivo(archivo.nombre, "descifrado");
    return Success(Archivo(archivo.directorio, nuevoNombre, descifrado));
  }

  /** Deciphering the file that enciphering wrote gives back the original content,
      in the same directory, under the name with both suffixes. */
  lemma {:induction false} FileRoundTrip(archivo: Archivo, clave: string)
    requires LetterKey(clave)
    ensures var cifrado := Archivo(archivo.directorio, CrearNombreArchivo(archivo.nombre, "cifrado"),
                                   Encipher(archivo.contenido, clave));
            Archivo(cifrado.directorio, CrearNombreArchivo(cifrado.nombre, "descifrado"),
                    Decipher(cifrado.contenido, clave))
            == Archivo(archivo.directorio, CrearNombreArchivo(archivo.nombre, "cifrado_descifrado"),
                       archivo.contenido)
  {
    DecipherEncipher(archivo.contenido, clave);
    assert "cifrado" + "_" + "descifrado" == "cifrado_descifrado";
    NameTwice(archivo.nombre, "cifrado", "descifrado");
  }
}
