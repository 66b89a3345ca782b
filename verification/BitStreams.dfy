/** Bit streams, most significant bit first, and the iterator that regroups them: `transform_width`. */
module BitStreams {

  // ---------- words and bits ----------

  function Pow2(k: nat): (p: nat)
    ensures p > 0
  {
    if k == 0 then 1 else 2 * Pow2(k - 1)
  }

  /** `v >> k`. */
  function ShiftRight(v: nat, k: nat): nat {
    if k == 0 then v else ShiftRight(v / 2, k - 1)
  }

  /** `v << k`. */
  function ShiftLeft(v: nat, k: nat): nat {
    if k == 0 then v else 2 * ShiftLeft(v, k - 1)
  }

  /** `v & ((1 << k) - 1)`. */
  function Mask(v: nat, k: nat): (r: nat)
    ensures r < Pow2(k)
  {
    if k == 0 then 0 else 2 * Mask(v / 2, k - 1) + v % 2
  }

  /** The `w` low bits of `v`. */
  function Bits(v: int, w: nat): (b: seq<bool>)
    ensures |b| == w
    decreases w, v
  {
    if w == 0 then [] else Bits(v / 2, w - 1) + [v % 2 == 1]
  }

  function Value(b: seq<bool>): (v: nat)
    ensures v < Pow2(|b|)
  {
    if b == [] then 0 else 2 * Value(b[..|b| - 1]) + if b[|b| - 1] then 1 else 0
  }

  function Zeros(n: nat): (b: seq<bool>)
    ensures |b| == n
  {
    seq(n, _ => false)
  }

  lemma {:induction false} ValueOfBits(v: nat, w: nat)
    requires v < Pow2(w)
    ensures Value(Bits(v, w)) == v
  {
    if w > 0 {
      ValueOfBits(v / 2, w - 1);
      assert Bits(v, w)[..w - 1] == Bits(v / 2, w - 1);
    }
  }

  lemma {:induction false} BitsOfValue(b: seq<bool>)
    ensures Bits(Value(b), |b|) == b
  {
    if b != [] {
      BitsOfValue(b[..|b| - 1]);
      assert b == b[..|b| - 1] + [b[|b| - 1]];
    }
  }

  lemma {:induction false} ZeroBits(w: nat)
    ensures Bits(0, w) == Zeros(w)
  {
    if w > 0 {
      ZeroBits(w - 1);
      assert Zeros(w) == Zeros(w - 1) + [false];
    }
  }

  /** Shifting right cuts the low bits off. */
  lemma {:induction false} BitsSplit(v: nat, w: nat, k: nat)
    requires k <= w
    ensures Bits(v, w) == Bits(ShiftRight(v, k), w - k) + Bits(v, k)
  {
    if k > 0 {
      BitsSplit(v / 2, w - 1, k - 1);
    }
  }

  lemma {:induction false} MaskKeeps(v: nat, k: nat)
    ensures Bits(Mask(v, k), k) == Bits(v, k)
  {
    if k > 0 {
      MaskKeeps(v / 2, k - 1);
      assert Mask(v, k) / 2 == Mask(v / 2, k - 1);
    }
  }

  /** Shifting left makes room for the bits of `j`, and the sum is their bitwise or. */
  lemma {:induction false} BitsAppend(x: nat, w: nat, i: nat, j: nat)
    requires j < Pow2(i)
    ensures Bits(ShiftLeft(x, i) + j, w + i) == Bits(x, w) + Bits(j, i)
  {
    if i > 0 {
      BitsAppend(x, w, i - 1, j / 2);
      assert (ShiftLeft(x, i) + j) / 2 == ShiftLeft(x, i - 1) + j / 2;
      assert (ShiftLeft(x, i) + j) % 2 == j % 2;
    }
  }

  lemma {:induction false} AppendFits(x: nat, w: nat, i: nat, j: nat)
    requires x < Pow2(w) && j < Pow2(i)
    ensures ShiftLeft(x, i) + j < Pow2(w + i)
  {
    if i > 0 {
      AppendFits(x, w, i - 1, j / 2);
    }
  }

  /** One step of regrouping: the top `i` of the `r` bits left in `v` move behind the bits of `x`. */
  lemma MoveBits(x: nat, w: nat, v: nat, r: nat, i: nat)
    requires i <= r && x < Pow2(w)
    ensures var j := Mask(ShiftRight(v, r - i), i);
            && Bits(ShiftLeft(x, i) + j, w + i) + Bits(v, r - i) == Bits(x, w) + Bits(v, r)
            && ShiftLeft(x, i) + j < Pow2(w + i)
  {
    var high := ShiftRight(v, r - i);
    BitsSplit(v, r, r - i);
    MaskKeeps(high, i);
    BitsAppend(x, w, i, Mask(high, i));
    AppendFits(x, w, i, Mask(high, i));
  }

  // ---------- streams of words ----------

  /** The bits of words of width `w`, in order. */
  function Stream(s: seq<int>, w: nat): seq<bool> {
    if s == [] then [] else Bits(s[0], w) + Stream(s[1..], w)
  }

  /** Complete groups of `w` bits; an incomplete rest is discarded. */
  function Groups(bits: seq<bool>, w: nat): (s: seq<int>)
    requires w > 0
    ensures forall i :: 0 <= i < |s| ==> 0 <= s[i] < Pow2(w)
  {
    if |bits| < w then [] else [Value(bits[..w])] + Groups(bits[w..], w)
  }

  lemma Assoc<T>(a: seq<T>, b: seq<T>, c: seq<T>)
    ensures a + (b + c) == a + b + c
  {
  }

  lemma Cut<T>(a: seq<T>, b: seq<T>, w: nat)
    requires |a| == w
    ensures (a + b)[..w] == a && (a + b)[w..] == b
  {
  }

  lemma {:induction false} StreamConcat(a: seq<int>, b: seq<int>, w: nat)
    ensures Stream(a + b, w) == Stream(a, w) + Stream(b, w)
  {
    if a == [] {
      assert a + b == b;
    } else {
      StreamConcat(a[1..], b, w);
      assert (a + b)[1..] == a[1..] + b;
    }
  }

  lemma StreamOneMore(s: seq<int>, x: int, w: nat)
    ensures Stream(s + [x], w) == Stream(s, w) + Bits(x, w)
  {
    StreamConcat(s, [x], w);
    assert Stream([x], w) == Bits(x, w) + Stream([x][1..], w);
  }

  lemma {:induction false} StreamLength(s: seq<int>, w: nat)
    ensures |Stream(s, w)| == |s| * w
  {
    if s != [] {
      StreamLength(s[1..], w);
    }
  }

  /** Regrouping the bits of a stream of words by their own width gives the words. */
  lemma {:induction false} GroupsOfStream(s: seq<int>, rest: seq<bool>, w: nat)
    requires |rest| < w && forall i :: 0 <= i < |s| ==> 0 <= s[i] < Pow2(w)
    ensures Groups(Stream(s, w) + rest, w) == s
  {
    if s != [] {
      GroupsOfStream(s[1..], rest, w);
      ValueOfBits(s[0], w);
      Assoc(Bits(s[0], w), Stream(s[1..], w), rest);
      Cut(Bits(s[0], w), Stream(s[1..], w) + rest, w);
    }
  }

  lemma OneGroupMore(n: nat, w: nat)
    requires n > 0
    ensures n * w == (n - 1) * w + w && n * w >= w
  {
    assert n * w == (n - 1) * w + 1 * w;
  }

  /** Complete groups keep every bit. */
  lemma {:induction false} StreamOfGroups(bits: seq<bool>, w: nat, n: nat)
    requires w > 0 && |bits| == n * w
    ensures Stream(Groups(bits, w), w) == bits && |Groups(bits, w)| == n
  {
    if n > 0 {
      OneGroupMore(n, w);
      StreamOfGroups(bits[w..], w, n - 1);
      BitsOfValue(bits[..w]);
      assert bits == bits[..w] + bits[w..];
      assert Groups(bits, w)[1..] == Groups(bits[w..], w);
    }
  }

  /** Reading one more word when all bits read so far are accounted for. */
  lemma ReadWord(out: seq<bool>, before: seq<bool>, source: seq<int>, first: nat, p: nat, w: nat)
    requires first <= p < |source| && out == before + Stream(source[first..p], w)
    ensures out + Bits(source[p], w) == before + Stream(source[first..p + 1], w) + Zeros(0)
  {
    StreamOneMore(source[first..p], source[p], w);
    assert source[first..p + 1] == source[first..p] + [source[p]];
  }

  // ---------- the iterator ----------

  /**
   * `transform_width<Base, BitsOut, BitsIn>`. `source[i]` is what dereferencing the base iterator at
   * position `i` gives, negative where that throws; `end` is the position of the end iterator.
   */
  class TransformWidth {
    const bitsOut: nat
    const bitsIn: nat
    const source: seq<int>
    const end: nat
    var pos: nat
    var bufferOutFull: bool
    var bufferOut: nat
    var bufferIn: nat
    var remainingBits: nat
    var endOfSequence: bool

    constructor (bitsOut: nat, bitsIn: nat, source: seq<int>, end: nat)
      ensures this.bitsOut == bitsOut && this.bitsIn == bitsIn && this.source == source && this.end == end
      ensures pos == 0 && !bufferOutFull && remainingBits == 0 && !endOfSequence
    {
      this.bitsOut, this.bitsIn, this.source, this.end := bitsOut, bitsIn, source, end;
      pos, bufferOutFull, bufferOut, bufferIn, remainingBits, endOfSequence := 0, false, 0, 0, 0, false;
    }

    /** The widths are those of a conversion, and a base that is read up to its end throws there. */
    ghost predicate Valid() {
      && 0 < bitsOut && 0 < bitsIn
      && if bitsIn < bitsOut then |source| == end + 1 && source[end] < 0 else |source| == end
    }

    /** The bits read but not yet passed on. */
    ghost function Left(): seq<bool>
      reads `bufferIn, `remainingBits
    {
      Bits(bufferIn, remainingBits)
    }

    /** Another value can be asked for: there is input, or a rest of bits to fill up with zeros. */
    ghost predicate More()
      reads this
    {
      if endOfSequence then bitsOut <= bitsIn && pos == end && remainingBits > 0 else pos < end
    }

    /** The zeros that the next value is filled up with. */
    ghost function FillUp(): nat
      reads this
    {
      if endOfSequence && remainingBits < bitsOut then bitsOut - remainingBits else 0
    }

    /** The part of `fill` that gets bits when none are left: the next word, or zeros after the last one. */
    method Refill(missing: nat) returns (ok: bool)
      requires pos < |source| || remainingBits > 0 || endOfSequence
      modifies `pos, `bufferIn, `remainingBits
      ensures if old(remainingBits) > 0 then
                ok && pos == old(pos) && remainingBits == old(remainingBits) && Left() == old(Left())
              else if endOfSequence then ok && pos == old(pos) && remainingBits == missing && Left() == Zeros(missing)
              else if source[old(pos)] < 0 then !ok && pos == old(pos) && remainingBits == 0
              else ok && pos == old(pos) + 1 && remainingBits == bitsIn && Left() == Bits(source[old(pos)], bitsIn)
    {
      if remainingBits == 0 {
        if endOfSequence {
          bufferIn := 0;
          remainingBits := missing;
          ZeroBits(missing);
        } else {
          if source[pos] < 0 {
            return false;
          }
          bufferIn, pos := source[pos], pos + 1;
          remainingBits := bitsIn;
        }
      }
      ok := true;
    }

    /** The part of `fill` that moves the bits the output still misses, or those that are left. */
    method Move(missing: nat) returns (stillMissing: nat)
      requires 0 < missing <= bitsOut && 0 < remainingBits && bufferOut < Pow2(bitsOut - missing)
      modifies `bufferOut, `remainingBits
      ensures missing - stillMissing == old(remainingBits) - remainingBits > 0
      ensures stillMissing == 0 || remainingBits == 0
      ensures bufferOut < Pow2(bitsOut - stillMissing)
      ensures Bits(bufferOut, bitsOut - stillMissing) + Left() == old(Bits(bufferOut, bitsOut - missing)) + old(Left())
    {
      var i := if missing < remainingBits then missing else remainingBits;
      var j := Mask(ShiftRight(bufferIn, remainingBits - i), i);
      MoveBits(bufferOut, bitsOut - missing, bufferIn, remainingBits, i);
      bufferOut := ShiftLeft(bufferOut, i) + j;
      stillMissing, remainingBits := missing - i, remainingBits - i;
    }

    /** The bits put out and left over are those left `before` and those read from `first` on. */
    ghost predicate Balanced(missing: nat, before: seq<bool>, first: nat, zeros: nat)
      requires missing <= bitsOut && first <= pos <= |source|
      reads `pos, `bufferOut, `bufferIn, `remainingBits
    {
      Bits(bufferOut, bitsOut - missing) + Left() == before + Stream(source[first..pos], bitsIn) + Zeros(zeros)
    }

    lemma NothingMoved(left: seq<bool>)
      requires pos <= |source| && left == Left()
      ensures Balanced(bitsOut, left, pos, 0)
    {
      assert Left() + Stream(source[pos..pos], bitsIn) + Zeros(0) == Left();
    }

    /** `Refill` in balance. */
    method RefillBalanced(missing: nat, ghost before: seq<bool>, ghost first: nat) returns (ok: bool, ghost zeros: nat)
      requires 0 < missing <= bitsOut && first <= pos <= |source| && Balanced(missing, before, first, 0)
      requires pos < |source| || remainingBits > 0 || endOfSequence
      modifies `pos, `bufferIn, `remainingBits
      ensures zeros == if endOfSequence && old(remainingBits) == 0 then missing else 0
      ensures if old(remainingBits) > 0 then ok && pos == old(pos) && remainingBits == old(remainingBits)
              else if endOfSequence then ok && pos == old(pos) && remainingBits == missing
              else if source[old(pos)] < 0 then !ok && pos == old(pos) && remainingBits == 0
              else ok && pos == old(pos) + 1 && remainingBits == bitsIn
      ensures pos <= |source| && (!ok ==> |before + Stream(source[first..pos], bitsIn)| == bitsOut - missing)
      ensures ok ==> Balanced(missing, before, first, zeros)
    {
      zeros := if endOfSequence && remainingBits == 0 then missing else 0;
      ghost var p, out, seen := pos, Bits(bufferOut, bitsOut - missing), Stream(source[first..pos], bitsIn);
      assert remainingBits == 0 ==> out == out + Left() == before + seen + Zeros(0) == before + seen;
      ok := Refill(missing);
      if p < pos {
        ReadWord(out, before, source, first, p, bitsIn);
      }
    }

    /** `Move` in balance. */
    method MoveBalanced(missing: nat, ghost before: seq<bool>, ghost first: nat, ghost zeros: nat)
      returns (stillMissing: nat)
      requires 0 < missing <= bitsOut && 0 < remainingBits && bufferOut < Pow2(bitsOut - missing)
      requires first <= pos <= |source| && Balanced(missing, before, first, zeros)
      modifies `bufferOut, `remainingBits
      ensures missing - stillMissing == old(remainingBits) - remainingBits > 0
      ensures stillMissing == 0 || remainingBits == 0
      ensures bufferOut < Pow2(bitsOut - stillMissing) && Balanced(stillMissing, before, first, zeros)
    {
      hide Bits, Stream, Pow2;
      stillMissing := Move(missing);
    }

    /** `fill`: moves bits of the input into the output buffer until that is full. */
    method Fill() returns (ok: bool)
      requires Valid() && More() && remainingBits <= bitsIn
      modifies `pos, `bufferOut, `bufferOutFull, `bufferIn, `remainingBits
      ensures old(pos) <= pos <= end
      ensures forall k :: old(pos) <= k < pos ==> source[k] >= 0
      ensures ok ==> bufferOutFull && bufferOut < Pow2(bitsOut) && remainingBits < bitsIn
      ensures ok ==> Balanced(0, old(Left()), old(pos), old(FillUp()))
      ensures !ok ==> pos < |source| && source[pos] < 0
      ensures !ok ==> |old(Left()) + Stream(source[old(pos)..pos], bitsIn)| < bitsOut
    {
      hide Balanced, Stream, Bits, Left;
      ghost var first, before, z: nat := pos, Left(), 0;
      var missing: nat := bitsOut;
      bufferOut := 0;
      NothingMoved(before);
      while 0 < missing
        invariant missing <= bitsOut && first <= pos <= end && remainingBits <= bitsIn
        invariant missing < bitsOut ==> remainingBits < bitsIn
        invariant 0 < missing < bitsOut ==> remainingBits == 0
        invariant 0 < missing && bitsOut <= bitsIn ==> pos == first
        invariant endOfSequence ==> pos == first
        invariant endOfSequence && 0 < missing ==> bitsOut - missing + remainingBits == old(remainingBits)
        invariant forall k :: first <= k < pos ==> source[k] >= 0
        invariant bufferOut < Pow2(bitsOut - missing)
        invariant z == if 0 < missing then 0 else old(FillUp())
        invariant z > 0 ==> remainingBits == 0
        invariant Balanced(missing, before, first, z)
      {
        var got;
        got, z := RefillBalanced(missing, before, first);
        if !got {
          return false;
        }
        missing := MoveBalanced(missing, before, first, z);
      }
      bufferOutFull := true;
      ok := true;
    }

    /** `equal_impl` against the end iterator. */
    method AtEnd() returns (atEnd: bool)
      modifies `endOfSequence
      ensures endOfSequence <==> old(endOfSequence) || (bitsIn >= bitsOut && pos == end)
      ensures atEnd <==> pos == end && (bitsIn < bitsOut || remainingBits == 0)
    {
      if bitsIn < bitsOut {
        return pos == end;
      }
      if pos == end {
        endOfSequence := true;
        return remainingBits == 0;
      }
      atEnd := false;
    }

    /** What has been passed on, and what is left, of everything read: `zeros` counts the bits filled up. */
    ghost predicate Conserved(out: seq<int>, zeros: nat)
      reads this
    {
      && pos <= end <= |source| && remainingBits < bitsIn && zeros < bitsOut
      && (forall k :: 0 <= k < pos ==> source[k] >= 0)
      && (forall k :: 0 <= k < |out| ==> 0 <= out[k] < Pow2(bitsOut))
      && Stream(out, bitsOut) + Left() == Stream(source[..pos], bitsIn) + Zeros(zeros)
      && (endOfSequence ==> bitsOut <= bitsIn && pos == end)
      && (zeros > 0 ==> endOfSequence && remainingBits == 0)
    }

    /** `*first` and `++first`: one more value, unless the base throws. */
    method Next(ghost out: seq<int>) returns (ok: bool, v: nat, ghost zeros: nat)
      requires Valid() && More() && Conserved(out, 0) && !bufferOutFull
      modifies `pos, `bufferOut, `bufferOutFull, `bufferIn, `remainingBits
      ensures ok ==> Conserved(out + [v], zeros) && !bufferOutFull
      ensures ok ==> pos > old(pos) || (pos == old(pos) && remainingBits < old(remainingBits))
      ensures !ok ==> pos < |source| && source[pos] < 0 && old(pos) <= pos <= end
      ensures !ok ==> |old(Left()) + Stream(source[old(pos)..pos], bitsIn)| < bitsOut
      ensures !ok ==> forall k :: 0 <= k < pos ==> source[k] >= 0
    {
      hide Stream, Bits, Pow2;
      zeros, v := FillUp(), 0;
      ghost var first, left := pos, Left();
      if !bufferOutFull {
        ok := Fill();
        if !ok {
          return;
        }
      }
      ok, v := true, bufferOut;
      bufferOutFull := false;
      OneMoreValue(Stream(out, bitsOut), left, Stream(source[..first], bitsIn), Bits(v, bitsOut), Left(),
          Stream(source[first..pos], bitsIn), Zeros(zeros));
      StreamOneMore(out, v, bitsOut);
      StreamConcat(source[..first], source[first..pos], bitsIn);
      assert source[..first] + source[first..pos] == source[..pos];
    }
  }

  lemma OneMoreValue(out: seq<bool>, left: seq<bool>, seen: seq<bool>, v: seq<bool>, newLeft: seq<bool>,
          read: seq<bool>, z: seq<bool>)
    requires out + left == seen && v + newLeft == left + read + z
    ensures out + v + newLeft == seen + read + z
  {
    assert out + v + newLeft == out + (v + newLeft);
    assert out + (left + read + z) == out + left + read + z;
  }

  lemma FailedRead(out: seq<bool>, left: seq<bool>, source: seq<int>, first: nat, p: nat, w: nat)
    requires first <= p <= |source| && out + left == Stream(source[..first], w) + Zeros(0)
    ensures out + (left + Stream(source[first..p], w)) == Stream(source[..p], w)
    ensures first < p ==> |Stream(source[first..p], w)| >= w
  {
    StreamConcat(source[..first], source[first..p], w);
    assert source[..first] + source[first..p] == source[..p];
    assert out + (left + Stream(source[first..p], w)) == out + left + Stream(source[first..p], w);
    if first < p {
      var read := source[first..p];
      assert Stream(read, w) == Bits(read[0], w) + Stream(read[1..], w);
    }
  }

  /** The values of an iterator up to its end, as the range constructors of the standard containers collect them. */
  method Collect(it: TransformWidth) returns (ok: bool, out: seq<int>, ghost rest: seq<bool>, ghost zeros: nat)
    requires it.Valid() && it.Conserved([], 0) && it.pos == 0 && !it.bufferOutFull && !it.endOfSequence
    requires it.remainingBits == 0
    modifies it
    ensures forall k :: 0 <= k < |out| ==> 0 <= out[k] < Pow2(it.bitsOut)
    ensures ok ==> forall k :: 0 <= k < it.end ==> it.source[k] >= 0
    ensures ok ==> Stream(out, it.bitsOut) + rest == Stream(it.source[..it.end], it.bitsIn) + Zeros(zeros)
    ensures ok ==> |rest| < it.bitsIn && zeros < it.bitsOut
    ensures ok ==> if it.bitsIn < it.bitsOut then zeros == 0 else rest == []
    ensures !ok ==> exists p :: 0 <= p < |it.source| && it.source[p] < 0 && p <= it.end
    ensures !ok && (forall k :: 0 <= k < it.end ==> it.source[k] >= 0) ==>
              && it.bitsIn < it.bitsOut && it.bitsIn <= |rest| < it.bitsOut
              && Stream(out, it.bitsOut) + rest == Stream(it.source[..it.end], it.bitsIn)
  {
    out, rest, zeros, ok := [], [], 0, true;
    while true
      invariant it.Valid() && it.Conserved(out, zeros) && !it.bufferOutFull
      decreases it.end - it.pos, it.remainingBits
    {
      var atEnd := it.AtEnd();
      if atEnd {
        rest := it.Left();
        return;
      }
      ghost var first, left := it.pos, it.Left();
      var v;
      ok, v, zeros := it.Next(out);
      if !ok {
        rest := left + Stream(it.source[first..it.pos], it.bitsIn);
        FailedRead(Stream(out, it.bitsOut), left, it.source, first, it.pos, it.bitsIn);
        return;
      }
      out := out + [v];
    }
  }
}
