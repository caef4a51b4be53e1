/** Byte strings, the library's error codes and the PHP string primitives the
    codecs rely on (trim, strpos, decimal and hexadecimal formatting). */
module Common {

  /** A PHP string is a sequence of bytes. */
  type byte = x: int | 0 <= x < 256
  type Bytes = seq<byte>

  /** The exception codes of the library (plus the two outcomes the model adds:
      a PHP TypeError, and the fuel bound of the IFD walk). */
  datatype Error =
    | FileTypeError       // not a JPEG file
    | FileCorrupt         // truncated stream, missing EOI, bad DataSet length
    | DataNotFound        // operation invoked before a (writable) read
    | DataFormatError     // bad TIFF header, unknown TIFF type, oversized segment
    | InvalidFieldId      // unknown field identifier or wrong value type
    | InvalidFieldWrite   // write to a read-only field or tag
    | NotImplemented      // unsupported IPTC character set
    | TypeError           // PHP raises a TypeError (array function given a non-array)
    | LoopLimit           // the IFD walk ran out of fuel (the source has no bound)

  datatype Result<T> = Ok(value: T) | Err(error: Error) {
    predicate IsFailure() { Err? }
    function PropagateFailure<U>(): Result<U> requires Err? { Err(error) }
    function Extract(): T requires Ok? { value }
  }

  datatype Option<T> = None | Some(value: T)

  /** The byte of an ASCII character; used for the literal strings of the source. */
  function Ascii(s: string): Bytes
  {
    seq(|s|, i requires 0 <= i < |s| => (s[i] as int) % 256)
  }

  /** PHP empty() of a string: true for "" and for "0". */
  predicate IsEmptyString(s: Bytes)
  {
    s == [] || s == [0x30]
  }

  predicate HasPrefix(s: Bytes, p: Bytes)
  {
    |p| <= |s| && s[..|p|] == p
  }

  /** Concatenation of a sequence of byte strings. */
  function Concat(parts: seq<Bytes>): Bytes
  {
    if parts == [] then [] else Concat(parts[..|parts| - 1]) + parts[|parts| - 1]
  }

  lemma DropJoin(a: Bytes, b: Bytes, c: Bytes)
    ensures (a + b + c)[|a|..] == b + c
  {
  }

  /** Where b was found at k, each slice of b is found at the same offset. */
  lemma SubSlice(s: Bytes, k: nat, b: Bytes, i: nat, j: nat)
    requires k + |b| <= |s| && s[k..k + |b|] == b && i <= j <= |b|
    ensures s[k + i..k + j] == b[i..j]
  {
    forall t | 0 <= t < j - i
      ensures s[k + i..k + j][t] == b[i..j][t]
    {
      assert s[k + i + t] == s[k..k + |b|][i + t];
    }
  }

  /** Where the six parts of a joined sequence were found at k, each part is
      found at its own offset. */
  lemma Fields6(s: Bytes, k: nat, a: Bytes, b: Bytes, c: Bytes, d: Bytes, e: Bytes, f: Bytes)
    requires k + |a + b + c + d + e + f| <= |s| && s[k..k + |a + b + c + d + e + f|] == a + b + c + d + e + f
    ensures var p := k + |a|;
      var q := p + |b| + |c| + |d|;
      s[p..p + |b|] == b && s[p + |b|..p + |b| + |c|] == c && s[p + |b| + |c|..q] == d &&
      s[q..q + |e|] == e && s[q + |e|..q + |e| + |f|] == f
  {
    var x := a + b + c + d + e + f;
    var p := k + |a|;
    var q := p + |b| + |c| + |d|;
    SubSlice(s, k, x, |a|, |a| + |b|);
    assert x[|a|..|a| + |b|] == b;
    SubSlice(s, k, x, |a| + |b|, |a| + |b| + |c|);
    assert x[|a| + |b|..|a| + |b| + |c|] == c;
    SubSlice(s, k, x, |a| + |b| + |c|, q - k);
    assert x[|a| + |b| + |c|..q - k] == d;
    SubSlice(s, k, x, q - k, q - k + |e|);
    assert x[q - k..q - k + |e|] == e;
    SubSlice(s, k, x, q - k + |e|, |x|);
    assert x[q - k + |e|..] == f;
  }

  /** A suffix that starts with a given part: the part, and what follows it. */
  lemma SliceSplit(s: Bytes, k: nat, a: Bytes, b: Bytes)
    requires k <= |s| && s[k..] == a + b
    ensures k + |a| <= |s| && s[k..k + |a|] == a && s[k + |a|..] == b
  {
    assert s[k..k + |a|] == s[k..][..|a|];
    assert s[k + |a|..] == s[k..][|a|..];
  }

  lemma ConcatAppend(parts: seq<Bytes>, p: Bytes)
    ensures Concat(parts + [p]) == Concat(parts) + p
  {
    assert (parts + [p])[..|parts|] == parts;
  }

  /** Concatenation seen from the front. */
  lemma {:induction false} ConcatCons(p: Bytes, parts: seq<Bytes>)
    ensures Concat([p] + parts) == p + Concat(parts)
    decreases |parts|
  {
    if parts != [] {
      var n := |parts|;
      assert ([p] + parts)[..n] == [p] + parts[..n - 1];
      ConcatCons(p, parts[..n - 1]);
    }
  }

  /** A list accumulated so far, followed by the outcome of the rest of a walk. */
  function Prepend<T>(acc: seq<T>, rest: Result<seq<T>>): Result<seq<T>>
  {
    if rest.Err? then rest else Ok(acc + rest.value)
  }

  lemma PrependNil<T>(rest: Result<seq<T>>)
    ensures Prepend([], rest) == rest
  {
    if rest.Ok? {
      assert [] + rest.value == rest.value;
    }
  }

  lemma PrependPrepend<T>(a: seq<T>, b: seq<T>, rest: Result<seq<T>>)
    ensures Prepend(a, Prepend(b, rest)) == Prepend(a + b, rest)
  {
    if rest.Ok? {
      assert a + (b + rest.value) == (a + b) + rest.value;
    }
  }

  /** PHP substr($s, $start, $len) for non-negative arguments: truncated at the end
      of the string, empty when the start lies beyond it. */
  function Substr(s: Bytes, start: nat, len: nat): (r: Bytes)
    ensures |r| <= len
    ensures start + len <= |s| ==> r == s[start..start + len]
    ensures start <= |s| ==> |r| == (if start + len <= |s| then len else |s| - start) && r == s[start..start + |r|]
  {
    if start >= |s| then [] else if start + len <= |s| then s[start..start + len] else s[start..]
  }

  function Zeros(n: nat): (r: Bytes)
    ensures |r| == n && forall i :: 0 <= i < n ==> r[i] == 0
  {
    seq(n, _ => 0)
  }

  // ---------------------------------------------------------------------------
  // PHP trim(): strips " \t\n\r\0\x0B" from both ends.

  predicate IsTrimByte(b: byte)
  {
    b == 32 || b == 9 || b == 10 || b == 13 || b == 0 || b == 11
  }

  function TrimLeft(s: Bytes): (r: Bytes)
    ensures |r| <= |s|
    ensures r == [] || !IsTrimByte(r[0])
    ensures forall i :: 0 <= i < |s| - |r| ==> IsTrimByte(s[i])
  {
    if s == [] || !IsTrimByte(s[0]) then s else TrimLeft(s[1..])
  }

  function TrimRight(s: Bytes): (r: Bytes)
    ensures |r| <= |s|
    ensures r == [] || !IsTrimByte(r[|r| - 1])
    ensures forall i :: |r| <= i < |s| ==> IsTrimByte(s[i])
  {
    if s == [] || !IsTrimByte(s[|s| - 1]) then s else TrimRight(s[..|s| - 1])
  }

  /** Stripping the left end leaves a suffix. */
  lemma {:induction false} TrimLeftSuffix(s: Bytes)
    ensures TrimLeft(s) == s[|s| - |TrimLeft(s)|..]
  {
    if s != [] && IsTrimByte(s[0]) {
      TrimLeftSuffix(s[1..]);
      assert s[1..][|s| - 1 - |TrimLeft(s)|..] == s[|s| - |TrimLeft(s)|..];
    }
  }

  /** Stripping the right end leaves a prefix. */
  lemma {:induction false} TrimRightPrefix(s: Bytes)
    ensures TrimRight(s) == s[..|TrimRight(s)|]
  {
    if s != [] && IsTrimByte(s[|s| - 1]) {
      TrimRightPrefix(s[..|s| - 1]);
      assert s[..|s| - 1][..|TrimRight(s)|] == s[..|TrimRight(s)|];
    }
  }

  function Trim(s: Bytes): Bytes
  {
    TrimRight(TrimLeft(s))
  }

  /** A trimmed string: no strippable byte at either end. */
  predicate IsTrimmed(s: Bytes)
  {
    s == [] || (!IsTrimByte(s[0]) && !IsTrimByte(s[|s| - 1]))
  }

  /** trim() yields a trimmed infix of its input and leaves a trimmed string as it is. */
  lemma TrimProperties(s: Bytes)
    ensures IsTrimmed(Trim(s))
    ensures |Trim(s)| <= |s|
    ensures var i := |s| - |TrimLeft(s)|;
            i + |Trim(s)| <= |s| && Trim(s) == s[i..i + |Trim(s)|]
    ensures var i := |s| - |TrimLeft(s)|;
            forall k :: 0 <= k < |s| && !(i <= k < i + |Trim(s)|) ==> IsTrimByte(s[k])
    ensures IsTrimmed(s) ==> Trim(s) == s
  {
    var l := TrimLeft(s);
    var r := TrimRight(l);
    var i := |s| - |l|;
    TrimLeftSuffix(s);
    TrimRightPrefix(l);
    if r != [] {
      assert r[0] == l[0];
    }
    assert r == s[i..i + |r|];
    forall k | 0 <= k < |s| && !(i <= k < i + |r|)
      ensures IsTrimByte(s[k])
    {
      if k >= i + |r| {
        assert s[k] == l[k - i];
      }
    }
  }

  /** trim() removes a NUL pad byte appended to a trimmed string. */
  lemma TrimPadded(s: Bytes)
    requires IsTrimmed(s)
    ensures Trim(s + [0]) == s
  {
    if s == [] {
      assert TrimLeft([0]) == TrimLeft([]);
    } else {
      assert TrimLeft(s + [0]) == s + [0];
      assert (s + [0])[..|s|] == s;
      assert TrimRight(s + [0]) == TrimRight(s);
    }
  }

  // ---------------------------------------------------------------------------
  // PHP strpos(): the first occurrence of a pattern at or after a position.

  predicate OccursAt(s: Bytes, pat: Bytes, k: int)
  {
    0 <= k && k + |pat| <= |s| && s[k..k + |pat|] == pat
  }

  function IndexOf(s: Bytes, pat: Bytes, from: nat): (r: Option<nat>)
    requires |pat| > 0
    ensures r.Some? ==> from <= r.value && OccursAt(s, pat, r.value)
    ensures r.Some? ==> forall k :: from <= k < r.value ==> !OccursAt(s, pat, k)
    ensures r.None? ==> forall k :: from <= k ==> !OccursAt(s, pat, k)
    decreases |s| - from
  {
    if from + |pat| > |s| then None
    else if s[from..from + |pat|] == pat then Some(from)
    else IndexOf(s, pat, from + 1)
  }

  lemma IndexOfHere(s: Bytes, pat: Bytes, k: nat)
    requires |pat| > 0 && k + |pat| <= |s| && s[k..k + |pat|] == pat
    ensures IndexOf(s, pat, k) == Some(k)
  {
  }

  // ---------------------------------------------------------------------------
  // Number formatting.

  function DigitChar(d: int): char
    requires 0 <= d < 10
  {
    "0123456789"[d]
  }

  /** Each decimal digit character stands for one digit. */
  lemma DigitCharInjective(d: int, e: int)
    requires 0 <= d < 10 && 0 <= e < 10 && DigitChar(d) == DigitChar(e)
    ensures d == e
  {
  }

  /** The decimal representation of a natural number, as PHP prints it. */
  function NatString(n: nat): (r: string)
    ensures |r| > 0
    ensures forall i :: 0 <= i < |r| ==> '0' <= r[i] <= '9'
    decreases n
  {
    if n < 10 then [DigitChar(n)] else NatString(n / 10) + [DigitChar(n % 10)]
  }

  /** The decimal representation of an integer (PHP's int-to-string conversion). */
  function IntString(n: int): string
  {
    if n < 0 then "-" + NatString(-n) else NatString(n)
  }

  function HexChar(d: int): char
    requires 0 <= d < 16
  {
    "0123456789abcdef"[d]
  }

  /** PHP dechex(): lower-case hexadecimal without leading zeros. */
  function HexString(n: nat): (r: string)
    ensures |r| > 0
    decreases n
  {
    if n < 16 then [HexChar(n)] else HexString(n / 16) + [HexChar(n % 16)]
  }

  /** The two lower-case hexadecimal digits of a byte (PHP bin2hex of one byte). */
  function ByteHex(b: byte): (r: string)
    ensures |r| == 2
  {
    [HexChar(b / 16), HexChar(b % 16)]
  }

  // ---------------------------------------------------------------------------
  // Big-endian integer fields (pack 'n' and 'N', and their reading).

  function BE16(n: nat): (r: Bytes)
    ensures |r| == 2
  {
    [(n / 256) % 256, n % 256]
  }

  function BE32(n: nat): (r: Bytes)
    ensures |r| == 4
  {
    [(n / 16777216) % 256, (n / 65536) % 256, (n / 256) % 256, n % 256]
  }

  function ReadBE16(s: Bytes, pos: int): (r: nat)
    requires 0 <= pos && pos + 2 <= |s|
    ensures r < 65536
  {
    (s[pos] as int) * 256 + s[pos + 1]
  }

  function ReadBE32(s: Bytes, pos: int): (r: nat)
    requires 0 <= pos && pos + 4 <= |s|
    ensures r < 4294967296
  {
    (s[pos] as int) * 16777216 + (s[pos + 1] as int) * 65536 + (s[pos + 2] as int) * 256 + s[pos + 3]
  }

  lemma MulAtLeast(a: int, d: int)
    requires a >= 1 && d > 0
    ensures a * d >= d
  {
  }

  lemma MulMono(a: int, b: int, d: int)
    requires a <= b && d >= 0
    ensures a * d <= b * d
  {
  }

  lemma MulDistrib(a: int, b: int, c: int)
    ensures (a + b) * c == a * c + b * c
  {
  }

  lemma MulAssoc(a: int, b: int, c: int)
    ensures a * b * c == a * (c * b)
  {
  }

  /** Division with remainder is unique. */
  lemma DivModUnique(n: int, d: int, q: int, r: int)
    requires d > 0 && n == q * d + r && 0 <= r < d
    ensures n / d == q && n % d == r
  {
    var q', r' := n / d, n % d;
    assert n == q' * d + r';
    MulDistrib(q, -q', d);
    assert (q - q') * d == r' - r;
    if q - q' >= 1 {
      MulAtLeast(q - q', d);
    } else if q' - q >= 1 {
      MulAtLeast(q' - q, d);
    }
  }

  /** Splitting off the low digit in base k of a number taken modulo k * m. */
  lemma ModSplit(n: nat, k: nat, m: nat)
    requires k > 0 && m > 0
    ensures (n / k) % m * k + n % k == n % (k * m)
    ensures (n / k) / m == n / (k * m)
  {
    var q, r := n / k, n % k;
    var q1, q0 := q / m, q % m;
    assert n == q * k + r;
    assert q == q1 * m + q0;
    MulDistrib(q1 * m, q0, k);
    MulAssoc(q1, m, k);
    assert n == q1 * (k * m) + (q0 * k + r);
    MulMono(q0, m - 1, k);
    MulDistrib(m, -1, k);
    assert 0 <= q0 * k + r < k * m;
    DivModUnique(n, k * m, q1, q0 * k + r);
  }

  /** Reading a 16-bit value where BE16(n) was written gives n modulo 2^16. */
  lemma ReadBE16At(s: Bytes, k: nat, n: nat)
    requires k + 2 <= |s| && s[k..k + 2] == BE16(n)
    ensures ReadBE16(s, k) == n % 65536
  {
    assert s[k] == (n / 256) % 256 && s[k + 1] == n % 256;
    ModSplit(n, 256, 256);
  }

  /** Writing a 16-bit length and reading it back gives the length modulo 2^16. */
  lemma BE16RoundTrip(n: nat, pre: Bytes, post: Bytes)
    ensures ReadBE16(pre + BE16(n) + post, |pre|) == n % 65536
  {
    var s := pre + BE16(n) + post;
    assert s[|pre|..|pre| + 2] == BE16(n);
    ReadBE16At(s, |pre|, n);
  }

  /** The four bytes of BE32(n), weighted by their places, make n modulo 2^32. */
  lemma BE32Digits(n: nat)
    ensures ((n / 16777216) % 256) * 16777216 + ((n / 65536) % 256) * 65536 + ((n / 256) % 256) * 256 + n % 256
      == n % 4294967296
  {
    ModSplit(n, 256, 256);
    ModSplit(n, 65536, 256);
    ModSplit(n, 16777216, 256);
    ModSplit(n / 256, 256, 256);
    ModSplit(n / 65536, 256, 256);
  }

  /** Reading a 32-bit value where BE32(n) was written gives n modulo 2^32. */
  lemma ReadBE32At(s: Bytes, k: nat, n: nat)
    requires k + 4 <= |s| && s[k..k + 4] == BE32(n)
    ensures ReadBE32(s, k) == n % 4294967296
  {
    assert s[k] == (n / 16777216) % 256 && s[k + 1] == (n / 65536) % 256;
    assert s[k + 2] == (n / 256) % 256 && s[k + 3] == n % 256;
    BE32Digits(n);
  }

  /** Writing a 32-bit length and reading it back gives the length modulo 2^32. */
  lemma BE32RoundTrip(n: nat, pre: Bytes, post: Bytes)
    ensures ReadBE32(pre + BE32(n) + post, |pre|) == n % 4294967296
  {
    var s := pre + BE32(n) + post;
    assert s[|pre|..|pre| + 4] == BE32(n);
    ReadBE32At(s, |pre|, n);
  }
}
