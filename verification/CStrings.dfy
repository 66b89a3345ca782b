/** Bytes, NUL-terminated strings and the two character orders the runtime uses. */
module CStrings {

  type Byte = b: int | 0 <= b < 256

  /** A C string: its bytes up to, and without, the terminating NUL. */
  type CString = s: seq<Byte> | forall i :: 0 <= i < |s| ==> s[i] != 0 witness []

  const NUL: Byte := 0
  const SPACE: Byte := ' ' as int
  const BAR: Byte := '|' as int

  /** The bytes of a literal. */
  function Text(s: string): (text: CString)
    requires forall i :: 0 <= i < |s| ==> 0 < s[i] as int < 256
    ensures |text| == |s| && forall i :: 0 <= i < |s| ==> text[i] == s[i] as int
  {
    seq(|s|, i requires 0 <= i < |s| => s[i] as int)
  }

  datatype Option<+T> = None | Some(value: T)

  /** The byte read through a pointer at offset `i`; the terminator follows the last character. */
  function At(s: CString, i: nat): (b: Byte)
    requires i <= |s|
    ensures b == 0 <==> i == |s|
  {
    if i < |s| then s[i] else NUL
  }

  /** The C string that starts where `s` starts: everything before the first NUL. */
  function UpToNul(s: seq<Byte>): (r: CString)
    ensures |r| <= |s| && r == s[..|r|]
    ensures |r| < |s| ==> s[|r|] == NUL
  {
    if s == [] || s[0] == NUL then [] else [s[0]] + UpToNul(s[1..])
  }

  /** A terminated string is read back from memory, whatever follows it. */
  lemma {:induction false} UpToNulReads(s: CString, rest: seq<Byte>)
    ensures UpToNul(s + [NUL] + rest) == s
  {
    var memory := s + [NUL] + rest;
    if s == [] {
      assert memory[0] == NUL;
    } else {
      UpToNulReads(s[1..], rest);
      assert memory[1..] == s[1..] + [NUL] + rest;
    }
  }

  /** How one character ranks: `strcmp` reads `unsigned char`, a plain `char` comparison is signed. */
  function Rank(signed: bool, b: Byte): int {
    if signed && b >= 128 then b - 256 else b
  }

  /** Three-way lexicographic order; a proper prefix comes first. */
  function Lex(signed: bool, a: seq<Byte>, b: seq<Byte>): int {
    if a == [] && b == [] then 0
    else if a == [] then -1
    else if b == [] then 1
    else if a[0] != b[0] then (if Rank(signed, a[0]) > Rank(signed, b[0]) then 1 else -1)
    else Lex(signed, a[1..], b[1..])
  }

  function StrCmp(a: CString, b: CString): int {
    Lex(false, a, b)
  }

  function Sign(x: int): int {
    if x < 0 then -1 else if x == 0 then 0 else 1
  }

  lemma {:induction false} LexZeroIsEqual(signed: bool, a: seq<Byte>, b: seq<Byte>)
    ensures Lex(signed, a, b) == 0 <==> a == b
  {
    if a != [] && b != [] && a[0] == b[0] {
      LexZeroIsEqual(signed, a[1..], b[1..]);
      assert a == [a[0]] + a[1..] && b == [b[0]] + b[1..];
    }
  }

  /** The number that a byte is as a signed character, in two's complement. */
  function SignedChar(b: Byte): (v: int)
    ensures -128 <= v < 128 && (v - b) % 256 == 0
  {
    if b >= 128 then b - 256 else b
  }

  /** The strings agree up to `k`, where `a` ends, or has the smaller character, and `b` does not end. */
  predicate BelowAt(signed: bool, a: seq<Byte>, b: seq<Byte>, k: nat) {
    && k <= |a| && k < |b| && a[..k] == b[..k]
    && (k < |a| ==> if signed then SignedChar(a[k]) < SignedChar(b[k]) else a[k] < b[k])
  }

  /** The order is that of the first difference, in unsigned or in signed characters. */
  lemma {:induction false} LexByFirstDifference(signed: bool, a: seq<Byte>, b: seq<Byte>)
    ensures Lex(signed, a, b) < 0 <==> exists k :: 0 <= k <= |a| && BelowAt(signed, a, b, k)
    ensures Lex(signed, a, b) in {-1, 0, 1}
  {
    if a != [] && b != [] {
      if a[0] == b[0] {
        LexByFirstDifference(signed, a[1..], b[1..]);
        if k :| 0 <= k <= |a[1..]| && BelowAt(signed, a[1..], b[1..], k) {
          assert a[..k + 1] == [a[0]] + a[1..][..k] && b[..k + 1] == [b[0]] + b[1..][..k];
          assert BelowAt(signed, a, b, k + 1);
        }
        if k :| 0 <= k <= |a| && BelowAt(signed, a, b, k) {
          assert k > 0 && a[..k][1..] == a[1..][..k - 1] && b[..k][1..] == b[1..][..k - 1];
          assert BelowAt(signed, a[1..], b[1..], k - 1);
        }
      } else {
        forall k | 0 < k <= |a| && k < |b|
          ensures a[..k] != b[..k]
        {
          assert a[..k][0] == a[0] && b[..k][0] == b[0];
        }
        assert Lex(signed, a, b) < 0 <==> BelowAt(signed, a, b, 0);
      }
    } else if b != [] {
      assert BelowAt(signed, a, b, 0);
    }
  }

  /** `strcmp` is negative exactly when the first string is a proper prefix or has the smaller byte first. */
  lemma StrCmpIsByteOrder(a: CString, b: CString)
    ensures StrCmp(a, b) < 0 <==>
              exists k :: 0 <= k <= |a| && k < |b| && a[..k] == b[..k] && (k < |a| ==> a[k] < b[k])
  {
    LexByFirstDifference(false, a, b);
    if k :| 0 <= k <= |a| && BelowAt(false, a, b, k) {
      assert k < |b| && a[..k] == b[..k];
    }
    if k :| 0 <= k <= |a| && k < |b| && a[..k] == b[..k] && (k < |a| ==> a[k] < b[k]) {
      assert BelowAt(false, a, b, k);
    }
  }

  lemma {:induction false} LexAntisymmetric(signed: bool, a: seq<Byte>, b: seq<Byte>)
    ensures Lex(signed, a, b) == -Lex(signed, b, a)
  {
    if a != [] && b != [] && a[0] == b[0] {
      LexAntisymmetric(signed, a[1..], b[1..]);
    }
  }

  lemma {:induction false} LexTransitive(signed: bool, a: seq<Byte>, b: seq<Byte>, c: seq<Byte>)
    requires Lex(signed, a, b) <= 0 && Lex(signed, b, c) <= 0
    ensures Lex(signed, a, c) <= 0
    ensures Lex(signed, a, b) < 0 || Lex(signed, b, c) < 0 ==> Lex(signed, a, c) < 0
  {
    if a != [] && b != [] && c != [] && a[0] == b[0] == c[0] {
      LexTransitive(signed, a[1..], b[1..], c[1..]);
    }
  }
}
