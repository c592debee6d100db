/**
 * The pieces of the Java platform that the text-processing engine leans on, stated
 * exactly: exceptions as values, the character classes of java.util.regex, String.trim,
 * ASCII case mapping, String.compareTo, String.join, and 32-bit hash arithmetic.
 */
module JavaLang {

  datatype Option<+T> = None | Some(value: T)

  /** A Java call either returns a value or throws. */
  datatype Result<+T> = Ok(value: T) | Err(error: Exception)

  /** The exceptions the engine can throw or pass on. */
  datatype Exception =
    | PatternSyntax(description: string, pattern: string)   // java.util.regex.PatternSyntaxException
    | IllegalArgument(message: string)                      // java.lang.IllegalArgumentException
    | IndexOutOfBounds(message: string)                     // java.lang.IndexOutOfBoundsException
    | NullPointer                                           // java.lang.NullPointerException
    | TextProcessing(message: string, cause: Exception)     // the engine's own wrapper exception
    | Thrown(message: string)                               // thrown by caller-supplied callback code

  // ---------------------------------------------------------------------------
  // Character classes (java.util.regex without UNICODE_CHARACTER_CLASS)
  // ---------------------------------------------------------------------------

  /** `\s`: [ \t\n\x0B\f\r] */
  predicate IsSpace(c: char) {
    c == ' ' || c == '\t' || c == '\n' || c == '\U{000B}' || c == '\U{000C}' || c == '\r'
  }

  /** `\w`: [a-zA-Z_0-9] */
  predicate IsWordChar(c: char) {
    ('a' <= c <= 'z') || ('A' <= c <= 'Z') || ('0' <= c <= '9') || c == '_'
  }

  predicate IsNonWordChar(c: char) { !IsWordChar(c) }

  predicate IsDigit(c: char) { '0' <= c <= '9' }

  predicate IsAsciiLetterOrDigit(c: char) { ('a' <= c <= 'z') || ('A' <= c <= 'Z') || IsDigit(c) }

  /** The characters String.trim removes: everything at or below U+0020. */
  predicate IsTrimmable(c: char) { c <= ' ' }

  lemma SpaceIsTrimmable(c: char)
    ensures IsSpace(c) ==> IsTrimmable(c)
  {
  }

  // ---------------------------------------------------------------------------
  // String.trim
  // ---------------------------------------------------------------------------

  function TrimStart(s: string): (r: string)
    ensures |r| <= |s| && r == s[|s| - |r|..]
    ensures forall k :: 0 <= k < |s| - |r| ==> IsTrimmable(s[k])
    ensures r != [] ==> !IsTrimmable(r[0])
  {
    if s != [] && IsTrimmable(s[0]) then TrimStart(s[1..]) else s
  }

  function TrimEnd(s: string): (r: string)
    ensures |r| <= |s| && r == s[..|r|]
    ensures forall k :: |r| <= k < |s| ==> IsTrimmable(s[k])
    ensures r != [] ==> !IsTrimmable(r[|r| - 1])
  {
    if s != [] && IsTrimmable(s[|s| - 1]) then TrimEnd(s[..|s| - 1]) else s
  }

  /** String.trim: drop every leading and trailing character at or below U+0020. */
  function Trim(s: string): (r: string)
    ensures r == [] || (!IsTrimmable(r[0]) && !IsTrimmable(r[|r| - 1]))
    ensures |r| <= |s|
  {
    TrimEnd(TrimStart(s))
  }

  /** A string whose last character survives trimming keeps it at the end. */
  lemma TrimKeepsLast(s: string)
    requires s != [] && !IsTrimmable(s[|s| - 1])
    ensures Trim(s) != [] && Trim(s)[|Trim(s)| - 1] == s[|s| - 1]
  {
    var u := TrimStart(s);
    assert u != [] && u[|u| - 1] == s[|s| - 1];
  }

  /** Trim leaves a string alone exactly when neither end is trimmable. */
  lemma TrimIdentity(s: string)
    requires s == [] || (!IsTrimmable(s[0]) && !IsTrimmable(s[|s| - 1]))
    ensures Trim(s) == s
  {
  }

  lemma TrimIdempotent(s: string)
    ensures Trim(Trim(s)) == Trim(s)
  {
    TrimIdentity(Trim(s));
  }

  // ---------------------------------------------------------------------------
  // ASCII case mapping (Character.toUpperCase / toLowerCase restricted to ASCII)
  // ---------------------------------------------------------------------------

  predicate IsUpper(c: char) { 'A' <= c <= 'Z' }
  predicate IsLower(c: char) { 'a' <= c <= 'z' }

  function UpperChar(c: char): (r: char)
    ensures !IsLower(r)
    ensures IsWordChar(r) <==> IsWordChar(c)
    ensures IsSpace(r) <==> IsSpace(c)
    ensures !IsLower(c) ==> r == c
  {
    if IsLower(c) then (c as int - 32) as char else c
  }

  function LowerChar(c: char): (r: char)
    ensures !IsUpper(r)
    ensures IsWordChar(r) <==> IsWordChar(c)
    ensures IsSpace(r) <==> IsSpace(c)
    ensures !IsUpper(c) ==> r == c
  {
    if IsUpper(c) then (c as int + 32) as char else c
  }

  lemma CaseRoundTrip(c: char)
    ensures LowerChar(UpperChar(c)) == LowerChar(c)
    ensures UpperChar(LowerChar(c)) == UpperChar(c)
  {
  }

  function ToUpper(s: string): (r: string)
    ensures |r| == |s|
    ensures forall i :: 0 <= i < |s| ==> r[i] == UpperChar(s[i])
  {
    seq(|s|, i requires 0 <= i < |s| => UpperChar(s[i]))
  }

  function ToLower(s: string): (r: string)
    ensures |r| == |s|
    ensures forall i :: 0 <= i < |s| ==> r[i] == LowerChar(s[i])
  {
    seq(|s|, i requires 0 <= i < |s| => LowerChar(s[i]))
  }

  lemma ToLowerAppend(a: string, b: string)
    ensures ToLower(a + b) == ToLower(a) + ToLower(b)
  {
  }

  lemma ToLowerSlice(s: string, i: nat, j: nat)
    requires i <= j <= |s|
    ensures ToLower(s[i..j]) == ToLower(s)[i..j]
  {
  }

  // ---------------------------------------------------------------------------
  // String.compareTo: lexicographic by char, then by length
  // ---------------------------------------------------------------------------

  function CompareTo(a: string, b: string): (r: int)
    ensures a == [] || b == [] ==> r == |a| - |b|
    ensures a != [] && b != [] && a[0] != b[0] ==> r == a[0] as int - b[0] as int
    ensures |a| <= |b| && a == b[..|a|] ==> r == |a| - |b|
    ensures |b| <= |a| && b == a[..|b|] ==> r == |a| - |b|
  {
    if a == [] || b == [] then |a| - |b|
    else if a[0] != b[0] then a[0] as int - b[0] as int
    else CompareTo(a[1..], b[1..])
  }

  lemma {:induction false} CompareToZero(a: string, b: string)
    ensures CompareTo(a, b) == 0 <==> a == b
  {
    if a != [] && b != [] && a[0] == b[0] {
      CompareToZero(a[1..], b[1..]);
      assert a == [a[0]] + a[1..] && b == [b[0]] + b[1..];
    }
  }

  lemma {:induction false} CompareToAntisymmetric(a: string, b: string)
    ensures CompareTo(b, a) == -CompareTo(a, b)
  {
    if a != [] && b != [] && a[0] == b[0] {
      CompareToAntisymmetric(a[1..], b[1..]);
    }
  }

  lemma {:induction false} CompareToTransitive(a: string, b: string, c: string)
    requires CompareTo(a, b) <= 0 && CompareTo(b, c) <= 0
    ensures CompareTo(a, c) <= 0
  {
    if a == [] || c == [] {
    } else if b == [] {
    } else if a[0] == b[0] && b[0] == c[0] {
      CompareToTransitive(a[1..], b[1..], c[1..]);
    }
  }

  /** The empty string precedes every other string. */
  lemma EmptyIsLeast(s: string)
    ensures CompareTo("", s) <= 0
    ensures s != "" ==> CompareTo(s, "") > 0
  {
  }

  // ---------------------------------------------------------------------------
  // String.join and friends
  // ---------------------------------------------------------------------------

  /** String.join(sep, parts) */
  function Join(parts: seq<string>, sep: string): string
  {
    if parts == [] then ""
    else if |parts| == 1 then parts[0]
    else parts[0] + sep + Join(parts[1..], sep)
  }

  /** Joining one part more adds the separator and that part at the end. */
  lemma {:induction false} JoinSnoc(parts: seq<string>, x: string, sep: string)
    requires parts != []
    ensures Join(parts + [x], sep) == Join(parts, sep) + sep + x
    decreases |parts|
  {
    if |parts| == 1 {
      assert (parts + [x])[1..] == [x];
    } else {
      JoinSnoc(parts[1..], x, sep);
      assert (parts + [x])[1..] == parts[1..] + [x];
    }
  }

  /** String.repeat */
  function Repeat(s: string, n: nat): string
  {
    if n == 0 then "" else s + Repeat(s, n - 1)
  }

  /** n copies of s are n times as long as s. */
  lemma {:induction false} RepeatLength(s: string, n: nat)
    ensures |Repeat(s, n)| == n * |s|
  {
    if n > 0 {
      RepeatLength(s, n - 1);
    }
  }

  /** String.repeat on an int count: a negative count throws IllegalArgumentException. */
  function RepeatChecked(s: string, n: int): (r: Result<string>)
    ensures r.Err? <==> n < 0
    ensures r.Err? ==> r.error == IllegalArgument("count is negative: " + IntToString(n))
    ensures r.Ok? ==> r.value == Repeat(s, n)
  {
    if n < 0 then Err(IllegalArgument("count is negative: " + IntToString(n))) else Ok(Repeat(s, n))
  }

  lemma RepeatSpaces(n: nat)
    ensures forall i :: 0 <= i < |Repeat(" ", n)| ==> Repeat(" ", n)[i] == ' '
  {
    if n > 0 {
      RepeatSpaces(n - 1);
    }
  }

  function DigitChar(d: nat): char
    requires d < 10
  {
    "0123456789"[d]
  }

  function NatToString(n: nat): (r: string)
    ensures r != []
    ensures forall i :: 0 <= i < |r| ==> IsDigit(r[i])
    decreases n
  {
    if n < 10 then [DigitChar(n)] else NatToString(n / 10) + [DigitChar(n % 10)]
  }

  /** Integer.toString / Long.toString */
  function IntToString(n: int): string
  {
    if n < 0 then "-" + NatToString(-n) else NatToString(n)
  }

  // ---------------------------------------------------------------------------
  // 32-bit arithmetic for hashCode
  // ---------------------------------------------------------------------------

  const TWO_32: int := 0x1_0000_0000
  const TWO_31: int := 0x8000_0000

  /** The Java int that an exact integer wraps around to. */
  function Wrap32(x: int): (r: int)
    ensures -TWO_31 <= r < TWO_31
    ensures (x - r) % TWO_32 == 0
  {
    var m := x % TWO_32;
    if m >= TWO_31 then m - TWO_32 else m
  }

  /** The polynomial s[0]*31^(n-1) + s[1]*31^(n-2) + ... + s[n-1], in unbounded integers. */
  ghost function PolyHash(s: string): int
  {
    if s == [] then 0 else 31 * PolyHash(s[..|s| - 1]) + s[|s| - 1] as int
  }

  /** Congruence modulo 2^32 survives one step of the hash. */
  lemma HashStepCongruent(h: int, p: int, c: int)
    requires (h - p) % TWO_32 == 0
    ensures ((31 * h + c) - (31 * p + c)) % TWO_32 == 0
  {
    var k := (h - p) / TWO_32;
    assert h - p == TWO_32 * k;
    assert (31 * h + c) - (31 * p + c) == TWO_32 * (31 * k);
  }

  /**
   * String.hashCode: h = 31 * h + c over the chars, in int arithmetic; the result is the
   * polynomial hash taken modulo 2^32, as a signed int.
   */
  function StringHashCode(s: string): (r: int)
    ensures -TWO_31 <= r < TWO_31
    ensures (r - PolyHash(s)) % TWO_32 == 0
  {
    if s == [] then 0
    else
      var h := StringHashCode(s[..|s| - 1]);
      var c := s[|s| - 1] as int;
      HashStepCongruent(h, PolyHash(s[..|s| - 1]), c);
      CongruentTrans(Wrap32(31 * h + c), 31 * h + c, PolyHash(s));
      Wrap32(31 * h + c)
  }

  /** Congruence modulo 2^32 is transitive. */
  lemma CongruentTrans(x: int, y: int, z: int)
    requires (x - y) % TWO_32 == 0 && (y - z) % TWO_32 == 0
    ensures (x - z) % TWO_32 == 0
  {
    var k := (x - y) / TWO_32;
    var l := (y - z) / TWO_32;
    assert x - z == TWO_32 * (k + l);
  }
}
