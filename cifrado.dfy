/** The parts of class Cifrado (AES/CBC/PKCS5Padding) that the class computes
    itself: the fixed IV, the normalisation of the key to 16 bytes and the
    output-file naming rule. The cipher and the Base64 codec belong to the Java
    library and are not part of this model. */
module Cifrado {
  import opened Outcomes
  import opened JavaSemantics
  import CifradoVigenere

  /** The transformation string handed to `Cipher.getInstance`. */
  const Algoritmo: string := "AES/CBC/PKCS5Padding"

  /** Key and IV length of AES-128, in bytes. */
  const KeyLength: nat := 16

  /** The fixed initialisation vector, shared by every call. */
  const IV: string := "abcdefghijklmnop"

  /** `IV.getBytes(UTF_8)`, the bytes handed to `IvParameterSpec`. */
  function IvBytes(): (b: seq<JavaByte>)
    ensures |b| == |IV|
  {
    assert IsAscii(IV);
    AsciiUtf8(IV)
  }

  /** The IV is the 16 ASCII bytes 'a' (0x61) to 'p' (0x70), one AES block. */
  lemma IvIsOneBlock()
    ensures |IvBytes()| == KeyLength
    ensures forall i :: 0 <= i < KeyLength ==> IvBytes()[i] as int == 0x61 + i
  {
    forall i | 0 <= i < KeyLength
      ensures IvBytes()[i] as int == 0x61 + i
    {
      assert IV[i] as int == 0x61 + i;
    }
  }

  // ---------------------------------------------------------------------------
  // Key normalisation

  /** The 16-byte AES key made from the key's UTF-8 bytes: byte i is the key's
      byte i where it has one, and zero past its end. */
  function NormalizedKey(keyBytes: seq<JavaByte>): (k: seq<JavaByte>)
    ensures |k| == KeyLength
    ensures forall i :: 0 <= i < KeyLength ==> k[i] == if i < |keyBytes| then keyBytes[i] else 0
  {
    if |keyBytes| >= KeyLength then keyBytes[..KeyLength]
    else keyBytes + seq(KeyLength - |keyBytes|, _ => 0)
  }

  function Min(a: int, b: int): (m: int)
    ensures m <= a && m <= b && (m == a || m == b)
  {
    if a < b then a else b
  }

  /** `normalizarClave`, given the key's UTF-8 bytes: a new zeroed 16-byte array,
      into which `System.arraycopy` copies the first `min(length, 16)` bytes. */
  method NormalizarClave(keyBytes: seq<JavaByte>) returns (keyBytes16: array<JavaByte>)
    ensures fresh(keyBytes16)
    ensures keyBytes16[..] == NormalizedKey(keyBytes)
  {
    keyBytes16 := new JavaByte[KeyLength](_ => 0);
    var n := Min(|keyBytes|, KeyLength);
    for i := 0 to n
      invariant forall j :: 0 <= j < i ==> keyBytes16[j] == keyBytes[j]
      invariant forall j :: i <= j < KeyLength ==> keyBytes16[j] == 0
    {
      keyBytes16[i] := keyBytes[i];
    }
    assert keyBytes16[..] == NormalizedKey(keyBytes) by {
      forall j | 0 <= j < KeyLength ensures keyBytes16[..][j] == NormalizedKey(keyBytes)[j] {
      }
    }
  }

  /** A short key is kept whole and padded with zero bytes on the right. */
  lemma ShortKeyIsPadded(keyBytes: seq<JavaByte>)
    requires |keyBytes| <= KeyLength
    ensures NormalizedKey(keyBytes) == keyBytes + seq(KeyLength - |keyBytes|, _ => 0 as JavaByte)
  {
    var k, z := NormalizedKey(keyBytes), seq(KeyLength - |keyBytes|, _ => 0 as JavaByte);
    forall i | 0 <= i < KeyLength ensures k[i] == (keyBytes + z)[i] {
    }
  }

  /** A long key is cut to its first 16 bytes. */
  lemma LongKeyIsTruncated(keyBytes: seq<JavaByte>)
    requires |keyBytes| >= KeyLength
    ensures NormalizedKey(keyBytes) == keyBytes[..KeyLength]
  {
    var k := NormalizedKey(keyBytes);
    forall i | 0 <= i < KeyLength ensures k[i] == keyBytes[..KeyLength][i] {
    }
  }

  /** Keys of 16 bytes or more normalise alike exactly when their first 16 bytes agree. */
  lemma LongKeysCollide(b1: seq<JavaByte>, b2: seq<JavaByte>)
    requires |b1| >= KeyLength && |b2| >= KeyLength
    ensures NormalizedKey(b1) == NormalizedKey(b2) <==> b1[..KeyLength] == b2[..KeyLength]
  {
    LongKeyIsTruncated(b1);
    LongKeyIsTruncated(b2);
  }

  /** A short key and the same key with an explicit zero byte appended are one AES key. */
  lemma TrailingZeroCollides(keyBytes: seq<JavaByte>)
    requires |keyBytes| < KeyLength
    ensures NormalizedKey(keyBytes + [0]) == NormalizedKey(keyBytes)
  {
    var k1, k2 := NormalizedKey(keyBytes + [0]), NormalizedKey(keyBytes);
    forall i | 0 <= i < KeyLength ensures k1[i] == k2[i] {
    }
  }

  /** The empty key is accepted and gives the all-zero key. */
  lemma EmptyKeyIsAllZero()
    ensures NormalizedKey([]) == seq(KeyLength, _ => 0 as JavaByte)
  {
    ShortKeyIsPadded([]);
  }

  lemma KeyExamples()
    ensures NormalizedKey(AsciiUtf8("short"))
         == [0x73, 0x68, 0x6f, 0x72, 0x74, 0, 0, 0, 0, 0, 0, 0, 0, 0, 0, 0]
    ensures NormalizedKey(AsciiUtf8("abcdefghijklmnopqrst")) == AsciiUtf8("abcdefghijklmnopqrst")[..KeyLength]
  {
    var short, long := AsciiUtf8("short"), AsciiUtf8("abcdefghijklmnopqrst");
    var expected: seq<JavaByte> := [0x73, 0x68, 0x6f, 0x72, 0x74, 0, 0, 0, 0, 0, 0, 0, 0, 0, 0, 0];
    forall i | 0 <= i < KeyLength ensures NormalizedKey(short)[i] == expected[i] {
      if i < 5 {
        assert short[i] as int == "short"[i] as int;
      }
    }
    LongKeyIsTruncated(long);
  }

  // ---------------------------------------------------------------------------
  // Output file names

  /** `crearNombreArchivo` of this class: the same split at the last dot as the
      Vigenère class, but with no guard for a name without a dot, where
      `substring(0, -1)` throws. */
  function CrearNombreArchivo(nombreOriginal: string, operacion: string): (r: Result<string>)
    ensures r.Success? <==> '.' in nombreOriginal
    ensures r.Failure? ==> r.error == StringIndexOutOfBounds
    ensures r.Success? ==> |r.value| == |nombreOriginal| + 1 + |operacion|
  {
    var indicePunto := LastIndexOf(nombreOriginal, '.');
    match Substring(nombreOriginal, 0, indicePunto)
    case Failure(e) => Failure(e)
    case Success(nombreBase) =>
      match SubstringFrom(nombreOriginal, indicePunto)
      case Failure(e) => Failure(e)
      case Success(extension) => Success(nombreBase + "_" + operacion + extension)
  }

  /** Where this class's rule succeeds it agrees with the Vigenère class's rule;
      where it fails, the Vigenère rule appends the suffix instead. */
  lemma {:induction false} NamingRulesAgreeOnDottedNames(nombre: string, operacion: string)
    ensures '.' in nombre ==>
              CrearNombreArchivo(nombre, operacion) == Success(CifradoVigenere.CrearNombreArchivo(nombre, operacion))
    ensures '.' !in nombre ==>
              CrearNombreArchivo(nombre, operacion) == Failure(StringIndexOutOfBounds)
              && CifradoVigenere.CrearNombreArchivo(nombre, operacion) == nombre + "_" + operacion
  {
    if '.' in nombre {
      var p := LastIndexOf(nombre, '.');
      assert Substring(nombre, 0, p) == Success(nombre[..p]);
      assert SubstringFrom(nombre, p) == Success(nombre[p..]);
    }
  }

  /** Splitting a name into a base and its extension, the suffix goes between them. */
  lemma {:induction false} NameSplitsAtExtension(base: string, ext: string, operacion: string)
    requires CifradoVigenere.IsExtension(ext)
    ensures CrearNombreArchivo(base + ext, operacion) == Success(base + "_" + operacion + ext)
  {
    assert ext[0] in base + ext by {
      assert (base + ext)[|base|] == ext[0];
    }
    NamingRulesAgreeOnDottedNames(base + ext, operacion);
    CifradoVigenere.NameSplitsAtExtension(base, ext, operacion);
  }

  lemma NameExamples()
    ensures CrearNombreArchivo("documento.txt", "cifrado") == Success("documento_cifrado.txt")
    ensures CrearNombreArchivo("README", "cifrado") == Failure(StringIndexOutOfBounds)
  {
    DottedNameExample();
    assert '.' !in "README";
  }

  lemma DottedNameExample()
    ensures CrearNombreArchivo("documento.txt", "cifrado") == Success("documento_cifrado.txt")
  {
    var base, ext := "documento", ".txt";
    assert base + ext == "documento.txt";
    NameSplitsAtExtension(base, ext, "cifrado");
    assert base + "_" + "cifrado" + ext == "documento_cifrado.txt";
  }
}
