/** Packing raw bytes into lower-case hexadecimal text, and reading them back. */
module PackData {
  import opened CStrings

  const UNDERSCORE: Byte := '_' as int
  const NULL_TEXT: CString := Text("NULL")

  // ---------- hexadecimal text ----------

  function HexDigit(v: nat): Byte
    requires v < 16
  {
    if v < 10 then 48 + v else 87 + v
  }

  /** The value of a lower-case hexadecimal digit. */
  function DigitValue(d: Byte): Option<nat> {
    if 48 <= d <= 57 then Some(d - 48) else if 97 <= d <= 102 then Some(d - 87) else None
  }

  predicate IsHex(d: Byte) {
    DigitValue(d).Some?
  }

  function Packed(data: seq<Byte>): (text: seq<Byte>)
    ensures |text| == 2 * |data|
    ensures forall i :: 0 <= i < |text| ==> IsHex(text[i])
  {
    if data == [] then [] else [HexDigit(data[0] / 16), HexDigit(data[0] % 16)] + Packed(data[1..])
  }

  /** The sixteen digits, each at its value. */
  const HEX: string := "0123456789abcdef"

  /** The high digit of every byte comes first, in lower case. */
  lemma {:induction false} PackedDigits(data: seq<Byte>, i: nat)
    requires i < |data|
    ensures Packed(data)[2 * i] == HEX[data[i] / 16] as int
    ensures Packed(data)[2 * i + 1] == HEX[data[i] % 16] as int
  {
    hide HexDigit;
    if i > 0 {
      PackedDigits(data[1..], i - 1);
    } else {
      HexDigitIs(data[0] / 16);
      HexDigitIs(data[0] % 16);
    }
  }

  /** Exactly the digits and the lower-case letters up to f have a value. */
  lemma DigitValueIs(d: Byte)
    ensures DigitValue(d) ==
              if '0' as int <= d <= '9' as int then Some(d - '0' as int)
              else if 'a' as int <= d <= 'f' as int then Some(10 + d - 'a' as int) else None
  {
  }

  lemma HexDigitIs(v: nat)
    requires v < 16
    ensures HexDigit(v) == HEX[v] as int && DigitValue(HexDigit(v)) == Some(v)
  {
  }

  /** How many leading bytes of `sz` the text spells out. */
  function GoodPairs(text: seq<Byte>, sz: nat): (g: nat)
    ensures g <= sz && 2 * g <= |text|
    ensures forall i :: 0 <= i < 2 * g ==> IsHex(text[i])
  {
    if sz > 0 && |text| >= 2 && IsHex(text[0]) && IsHex(text[1]) then 1 + GoodPairs(text[2..], sz - 1) else 0
  }

  /** The bytes that the first `2 * n` digits spell out. */
  function Unpacked(text: seq<Byte>, n: nat): (data: seq<Byte>)
    requires n <= GoodPairs(text, n)
    ensures |data| == n
  {
    if n == 0 then []
    else
      var b: Byte := DigitValue(text[0]).value * 16 + DigitValue(text[1]).value;
      [b] + Unpacked(text[2..], n - 1)
  }

  /** A text is accepted exactly when it is long enough and its first `2 * sz` characters are lower-case digits. */
  lemma AcceptedIffHex(text: seq<Byte>, sz: nat)
    ensures GoodPairs(text, sz) == sz <==>
              && 2 * sz <= |text|
              && forall i :: 0 <= i < 2 * sz ==>
                   '0' as int <= text[i] <= '9' as int || 'a' as int <= text[i] <= 'f' as int
  {
    AcceptedIffDigits(text, sz);
    forall i | 0 <= i < |text|
      ensures IsHex(text[i]) <==>
                '0' as int <= text[i] <= '9' as int || 'a' as int <= text[i] <= 'f' as int
    {
      DigitValueIs(text[i]);
    }
  }

  lemma {:induction false} AcceptedIffDigits(text: seq<Byte>, sz: nat)
    ensures GoodPairs(text, sz) == sz <==> 2 * sz <= |text| && forall i :: 0 <= i < 2 * sz ==> IsHex(text[i])
  {
    if sz > 0 && |text| >= 2 && IsHex(text[0]) && IsHex(text[1]) {
      AcceptedIffDigits(text[2..], sz - 1);
      var rest := text[2..];
      assert forall i :: 0 <= i < |rest| ==> rest[i] == text[i + 2];
      if 2 * sz <= |text| && forall i :: 0 <= i < 2 * (sz - 1) ==> IsHex(rest[i]) {
        forall i | 0 <= i < 2 * sz
          ensures IsHex(text[i])
        {
          if i >= 2 {
            assert text[i] == rest[i - 2];
          }
        }
      }
    }
  }

  /** Unpacking inverts packing, whatever follows the digits. */
  lemma {:induction false} UnpackPacked(data: seq<Byte>, rest: seq<Byte>)
    ensures GoodPairs(Packed(data) + rest, |data|) == |data|
    ensures Unpacked(Packed(data) + rest, |data|) == data
  {
    if data != [] {
      UnpackPacked(data[1..], rest);
      assert (Packed(data) + rest)[2..] == Packed(data[1..]) + rest;
    }
  }

  /** Packing what was unpacked gives the digits back. */
  lemma {:induction false} PackUnpacked(text: seq<Byte>, n: nat)
    requires n <= GoodPairs(text, n)
    ensures Packed(Unpacked(text, n)) == text[..2 * n]
  {
    hide HexDigit, DigitValue;
    if n > 0 {
      PackUnpacked(text[2..], n - 1);
      DigitsAgain(text[0], text[1]);
      assert text[..2 * n] == [text[0], text[1]] + text[2..][..2 * (n - 1)];
      assert Unpacked(text, n)[1..] == Unpacked(text[2..], n - 1);
    }
  }

  /** The byte that two digits spell out is written with these digits. */
  lemma DigitsAgain(high: Byte, low: Byte)
    requires IsHex(high) && IsHex(low)
    ensures var b := DigitValue(high).value * 16 + DigitValue(low).value;
            b < 256 && HexDigit(b / 16) == high && HexDigit(b % 16) == low
  {
  }

  lemma {:induction false} PackedOneMore(data: seq<Byte>, b: Byte)
    ensures Packed(data + [b]) == Packed(data) + [HexDigit(b / 16), HexDigit(b % 16)]
  {
    if data == [] {
      assert Packed([b]) == [HexDigit(b / 16), HexDigit(b % 16)] + Packed([]);
      assert [b] == data + [b];
    } else {
      PackedOneMore(data[1..], b);
      assert (data + [b])[1..] == data[1..] + [b];
    }
  }

  lemma {:induction false} UnpackedOneMore(text: seq<Byte>, n: nat, sz: nat)
    requires n == GoodPairs(text, n) && n < sz
    requires 2 * n + 2 <= |text| && IsHex(text[2 * n]) && IsHex(text[2 * n + 1])
    ensures GoodPairs(text, n + 1) == n + 1
    ensures Unpacked(text, n + 1) ==
              Unpacked(text, n) + [DigitValue(text[2 * n]).value * 16 + DigitValue(text[2 * n + 1]).value]
    decreases n
  {
    if n > 0 {
      assert GoodPairs(text[2..], n - 1) == n - 1;
      UnpackedOneMore(text[2..], n - 1, sz);
    }
  }

  lemma {:induction false} StuckAt(text: seq<Byte>, n: nat, sz: nat)
    requires n == GoodPairs(text, n) && n < sz
    requires 2 * n + 2 > |text| || !IsHex(text[2 * n]) || !IsHex(text[2 * n + 1])
    ensures GoodPairs(text, sz) == n
    decreases n
  {
    if n > 0 {
      assert GoodPairs(text[2..], n - 1) == n - 1;
      StuckAt(text[2..], n - 1, sz - 1);
    }
  }

  // ---------- through moving pointers ----------

  /** `SWIG_PackData`: writes two digits per byte from offset `c` on and returns the offset behind them. */
  method PackData(buff: array<Byte>, c: nat, ptr: array<Byte>, sz: nat) returns (end: nat)
    requires buff != ptr && sz <= ptr.Length && c + 2 * sz <= buff.Length
    modifies buff
    ensures end == c + 2 * sz
    ensures buff[..] == old(buff[..c]) + Packed(ptr[..sz]) + old(buff[c + 2 * sz..])
  {
    var u := 0;
    end := c;
    while u != sz
      invariant u <= sz && end == c + 2 * u
      invariant buff[..c] == old(buff[..c])
      invariant buff[c..end] == Packed(ptr[..u])
      invariant forall i :: end <= i < buff.Length ==> buff[i] == old(buff[i])
      decreases sz - u
    {
      var uu := ptr[u];
      buff[end] := HexDigit(uu / 16);
      buff[end + 1] := HexDigit(uu % 16);
      PackedOneMore(ptr[..u], uu);
      assert ptr[..u + 1] == ptr[..u] + [uu];
      end, u := end + 2, u + 1;
    }
    assert buff[..] == buff[..c] + buff[c..end] + buff[end..];
    assert buff[end..] == old(buff[c + 2 * sz..]);
  }

  /**
   * `SWIG_UnpackData`: reads digits from offset `c` of a text on. It stops at the first character that
   * is not a digit, the terminator included, and then only the bytes before it are written.
   */
  method UnpackData(text: CString, c: nat, ptr: array<Byte>, sz: nat) returns (end: Option<nat>)
    requires c <= |text| && sz <= ptr.Length
    modifies ptr
    ensures var g := GoodPairs(text[c..], sz);
            && g == GoodPairs(text[c..], g)
            && ptr[..] == Unpacked(text[c..], g) + old(ptr[g..])
            && end == if g == sz then Some(c + 2 * sz) else None
  {
    ghost var from := text[c..];
    var p, u := c, 0;
    while u != sz
      invariant u <= sz && p == c + 2 * u <= |text|
      invariant u == GoodPairs(from, u)
      invariant ptr[..u] == Unpacked(from, u)
      invariant forall i :: u <= i < ptr.Length ==> ptr[i] == old(ptr[i])
      decreases sz - u
    {
      assert p < |text| ==> from[2 * u] == text[p];
      assert p + 1 < |text| ==> from[2 * u + 1] == text[p + 1];
      var high := DigitValue(At(text, p));
      if high.None? {
        StuckAt(from, u, sz);
        assert ptr[..] == ptr[..u] + ptr[u..];
        return None;
      }
      var low := DigitValue(At(text, p + 1));
      if low.None? {
        StuckAt(from, u, sz);
        assert ptr[..] == ptr[..u] + ptr[u..];
        return None;
      }
      ptr[u] := high.value * 16 + low.value;
      UnpackedOneMore(from, u, sz);
      p, u := p + 2, u + 1;
    }
    assert ptr[..] == ptr[..u] + ptr[u..];
    end := Some(p);
  }

  // ---------- framed text ----------

  /** A packed value: an underscore, the digits, and a name. */
  function Framed(data: seq<Byte>, name: CString): (text: CString)
    ensures |text| == 1 + 2 * |data| + |name|
  {
    [UNDERSCORE] + Packed(data) + name
  }

  lemma Parts<T>(a: T, b: seq<T>, c: seq<T>)
    ensures ([a] + b + c)[1..] == b + c
    ensures ([a] + b + c)[1 + |b|..] == c
  {
  }

  /** A framed value gives back its bytes, and its name is what remains. */
  lemma FramedUnpacks(data: seq<Byte>, name: CString)
    ensures Framed(data, name)[0] == UNDERSCORE
    ensures GoodPairs(Framed(data, name)[1..], |data|) == |data|
    ensures Unpacked(Framed(data, name)[1..], |data|) == data
    ensures Framed(data, name)[1 + 2 * |data|..] == name
  {
    Parts(UNDERSCORE, Packed(data), name);
    UnpackPacked(data, name);
  }

  /** `strcpy` of `name` to offset `r`. */
  method StrCpy(buff: array<Byte>, r: nat, name: CString)
    requires r + |name| < buff.Length
    modifies buff
    ensures buff[..] == old(buff[..r]) + name + [NUL] + old(buff[r + |name| + 1..])
  {
    var i := 0;
    while At(name, i) != 0
      invariant i <= |name|
      invariant buff[..r] == old(buff[..r])
      invariant buff[r..r + i] == name[..i]
      invariant forall k :: r + i <= k < buff.Length ==> buff[k] == old(buff[k])
      decreases |name| - i
    {
      buff[r + i] := At(name, i);
      i := i + 1;
    }
    buff[r + i] := NUL;
    assert buff[..] == buff[..r] + buff[r..r + i] + [buff[r + i]] + buff[r + i + 1..];
  }

  /** The underscore and the digits, which both packing functions write first. */
  method PackFront(buff: array<Byte>, at: nat, ptr: array<Byte>, sz: nat) returns (end: nat)
    requires buff != ptr && sz <= ptr.Length && at + 1 + 2 * sz <= buff.Length
    modifies buff
    ensures end == at + |Framed(ptr[..sz], [])|
    ensures buff[..end] == old(buff[..at]) + Framed(ptr[..sz], [])
    ensures forall i :: end <= i < buff.Length ==> buff[i] == old(buff[i])
  {
    ghost var before, digits := buff[..at], Packed(ptr[..sz]);
    buff[at] := UNDERSCORE;
    assert buff[..at + 1] == before + [UNDERSCORE];
    end := PackData(buff, at + 1, ptr, sz);
    assert buff[..end] == before + [UNDERSCORE] + digits;
    Joined(before, UNDERSCORE, digits);
  }

  lemma Joined<T>(a: seq<T>, b: T, c: seq<T>)
    ensures a + [b] + c == a + ([b] + c + [])
  {
  }

  lemma FramedWith(data: seq<Byte>, name: CString, before: seq<Byte>)
    ensures before + Framed(data, []) + name == before + Framed(data, name)
    ensures Framed(data, []) + name == Framed(data, name)
  {
  }

  /** `SWIG_PackVoidPtr`: writes the framed pointer and its terminator if they fit in `bsz` bytes. */
  method PackVoidPtr(buff: array<Byte>, at: nat, ptr: array<Byte>, name: CString, bsz: nat) returns (ok: bool)
    requires buff != ptr && at + bsz <= buff.Length
    modifies buff
    ensures ok <==> |Framed(ptr[..], name)| + 1 <= bsz
    ensures ok ==>
              buff[..] == old(buff[..at]) + Framed(ptr[..], name) + [NUL]
                          + old(buff[at + |Framed(ptr[..], name)| + 1..])
    ensures !ok && 2 * ptr.Length + 2 <= bsz ==>
              buff[..] == old(buff[..at]) + Framed(ptr[..], []) + old(buff[at + |Framed(ptr[..], [])|..])
    ensures 2 * ptr.Length + 2 > bsz ==> buff[..] == old(buff[..])
  {
    hide Framed;
    if 2 * ptr.Length + 2 > bsz {
      return false;
    }
    ghost var before := buff[..];
    assert ptr[..ptr.Length] == ptr[..];
    var r := PackFront(buff, at, ptr, ptr.Length);
    if |name| + 1 > bsz - (r - at) {
      assert buff[..] == buff[..r] + before[r..];
      return false;
    }
    assert buff[r + |name| + 1..] == before[r + |name| + 1..];
    FramedWith(ptr[..], name, before[..at]);
    StrCpy(buff, r, name);
    ok := true;
  }

  /** `SWIG_PackDataName`. */
  method PackDataName(buff: array<Byte>, ptr: array<Byte>, sz: nat, name: Option<CString>, bsz: nat) returns (ok: bool)
    requires buff != ptr && sz <= ptr.Length && bsz <= buff.Length
    modifies buff
    ensures var text := Framed(ptr[..sz], if name.Some? then name.value else []);
            && (ok <==> |text| + 1 <= bsz)
            && buff[..] == if ok then text + [NUL] + old(buff[|text| + 1..]) else old(buff[..])
  {
    hide Framed;
    var lname := if name.Some? then |name.value| else 0;
    if 2 * sz + 2 + lname > bsz {
      return false;
    }
    ghost var before, tail := buff[..], if name.Some? then name.value else [];
    var r := PackFront(buff, 0, ptr, sz);
    assert buff[..r] == Framed(ptr[..sz], []);
    assert buff[r + lname + 1..] == before[r + lname + 1..];
    FramedWith(ptr[..sz], tail, []);
    if lname > 0 {
      StrCpy(buff, r, name.value);
    } else {
      EndText(buff, r);
    }
    ok := true;
  }

  /** Writes a terminator. */
  method EndText(buff: array<Byte>, r: nat)
    requires r < buff.Length
    modifies buff
    ensures buff[..] == old(buff[..r]) + [NUL] + old(buff[r + 1..])
  {
    buff[r] := NUL;
    assert buff[..] == buff[..r] + [buff[r]] + buff[r + 1..];
  }

  /** Where the name after an unpacked value is: the caller's own name, or the text from an offset on. */
  datatype Rest = Rejected | GivenName | From(offset: nat)

  /** `SWIG_UnpackDataName`, and `SWIG_UnpackVoidPtr` when `sz` is the size of a pointer. */
  method UnpackDataName(c: CString, at: nat, ptr: array<Byte>, sz: nat) returns (rest: Rest)
    requires at <= |c| && sz <= ptr.Length
    modifies ptr
    ensures At(c, at) == UNDERSCORE ==>
              var g := GoodPairs(c[at + 1..], sz);
              && g == GoodPairs(c[at + 1..], g) && ptr[..] == Unpacked(c[at + 1..], g) + old(ptr[g..])
              && rest == if g == sz then From(at + 1 + 2 * sz) else Rejected
    ensures c[at..] == NULL_TEXT ==> rest == GivenName && ptr[..] == seq(sz, _ => 0) + old(ptr[sz..])
    ensures At(c, at) != UNDERSCORE && c[at..] != NULL_TEXT ==> rest == Rejected && ptr[..] == old(ptr[..])
  {
    if At(c, at) != UNDERSCORE {
      LexZeroIsEqual(false, c[at..], NULL_TEXT);
      if StrCmp(c[at..], NULL_TEXT) == 0 {
        forall i | 0 <= i < sz {
          ptr[i] := 0;
        }
        assert ptr[..] == ptr[..sz] + ptr[sz..];
        return GivenName;
      }
      return Rejected;
    }
    assert c[at] == UNDERSCORE;
    var end := UnpackData(c, at + 1, ptr, sz);
    rest := if end.None? then Rejected else From(end.value);
  }
}
