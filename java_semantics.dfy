/** The few pieces of Java language and library behaviour that the cipher code
    relies on, written out so that the model does not inherit Dafny's meaning
    where Java's differs. */
module JavaSemantics {
  import opened Outcomes

  /** Java's `%` on `int`: the remainder truncates toward zero, so it takes the
      sign of the dividend (Dafny's `%` is Euclidean and never negative). */
  function JavaRem(a: int, b: int): (r: int)
    requires b > 0
    ensures -b < r < b
    ensures a >= 0 ==> 0 <= r && r == a % b
    ensures a <= 0 ==> r <= 0
    ensures (a - r) % b == 0
  {
    if a >= 0 then
      var q, rem := a / b, a % b;
      assert a - rem == q * b + 0;
      ModUnique(a - rem, q, 0, b);
      rem
    else
      var q, m := (-a) / b, (-a) % b;
      assert -a == q * b + m;
      assert a - (-m) == (-q) * b + 0;
      ModUnique(a - (-m), -q, 0, b);
      -m
  }

  lemma MulAtLeast(d: int, len: int)
    requires d >= 1 && len > 0
    ensures d * len >= len
  {
  }

  /** The Euclidean remainder is the only r in [0, L) with y == q * L + r. */
  lemma ModUnique(y: int, q: int, r: int, len: int)
    requires len > 0 && 0 <= r < len && y == q * len + r
    ensures y % len == r
  {
    var q', r' := y / len, y % len;
    assert y == q' * len + r';
    assert (q - q') * len == r' - r;
    if q > q' {
      MulAtLeast(q - q', len);
    } else if q' > q {
      MulAtLeast(q' - q, len);
    }
  }


  /** `String.lastIndexOf(char)`: the index of the last occurrence of `c`, or -1. */
  function LastIndexOf(s: string, c: char): (r: int)
    ensures -1 <= r < |s|
    ensures r == -1 <==> c !in s
    ensures 0 <= r ==> s[r] == c && c !in s[r + 1..]
  {
    if s == [] then -1
    else if s[|s| - 1] == c then |s| - 1
    else
      var r := LastIndexOf(s[..|s| - 1], c);
      assert s[..|s| - 1] + [s[|s| - 1]] == s;
      r
  }

  /** The last occurrence is unique: any position holding `c` with no `c` after it
      is the one `lastIndexOf` finds. */
  lemma LastIndexOfAt(s: string, c: char, p: nat)
    requires p < |s| && s[p] == c && c !in s[p + 1..]
    ensures LastIndexOf(s, c) == p
  {
    assert s[p] in s;
  }

  /** `String.substring(begin, end)`, which throws unless 0 <= begin <= end <= length. */
  function Substring(s: string, begin: int, end: int): (r: Result<string>)
    ensures r.Success? <==> 0 <= begin <= end <= |s|
    ensures r.Failure? ==> r.error == StringIndexOutOfBounds
    ensures r.Success? ==>
              |r.value| == end - begin && forall i :: 0 <= i < end - begin ==> r.value[i] == s[begin + i]
  {
    if 0 <= begin <= end <= |s| then Success(s[begin..end]) else Failure(StringIndexOutOfBounds)
  }

  /** `String.substring(begin)`, which throws unless 0 <= begin <= length. */
  function SubstringFrom(s: string, begin: int): (r: Result<string>)
    ensures r.Success? <==> 0 <= begin <= |s|
    ensures r.Failure? ==> r.error == StringIndexOutOfBounds
    ensures r.Success? ==> s == s[..begin] + r.value
  {
    if 0 <= begin <= |s| then Success(s[begin..]) else Failure(StringIndexOutOfBounds)
  }

  /** Java's `byte`: a signed 8-bit value. */
  newtype JavaByte = b: int | -128 <= b < 128

  predicate IsAscii(s: string) {
    forall i :: 0 <= i < |s| ==> s[i] as int < 128
  }

  /** `String.getBytes(UTF_8)` on a string of ASCII characters: under UTF-8
      (RFC 3629, section 3) each such character is the one byte holding its code. */
  function AsciiUtf8(s: string): (b: seq<JavaByte>)
    requires IsAscii(s)
    ensures |b| == |s|
    ensures forall i :: 0 <= i < |s| ==> b[i] as int == s[i] as int
  {
    seq(|s|, i requires 0 <= i < |s| => AsciiByte(s[i]))
  }

  /** The one UTF-8 byte of an ASCII character. */
  function AsciiByte(c: char): (b: JavaByte)
    requires c as int < 128
    ensures b as int == c as int
  {
    c as int as JavaByte
  }
}
