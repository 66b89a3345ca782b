/** Comparison of human-readable type names, which ignores spaces and knows `|`-separated aliases. */
module TypeNames {
  import opened CStrings

  /** What a comparison ends with: its C return value, or a read past a string's terminator. */
  datatype Outcome = Ok(value: int) | Overrun

  /** `s` without its spaces. */
  function Erase(s: seq<Byte>): (e: seq<Byte>)
    ensures |e| <= |s|
    ensures SPACE !in e
  {
    if s == [] then []
    else if s[0] == SPACE then Erase(s[1..])
    else [s[0]] + Erase(s[1..])
  }

  lemma {:induction false} EraseKeeps(s: seq<Byte>)
    requires ' ' as int !in s
    ensures Erase(s) == s
  {
    if s != [] {
      EraseKeeps(s[1..]);
    }
  }

  /** Erasing works piece by piece, and nothing is left of a space. */
  lemma {:induction false} EraseConcat(a: seq<Byte>, b: seq<Byte>)
    ensures Erase(a + b) == Erase(a) + Erase(b)
    ensures Erase([' ' as int]) == []
  {
    if a == [] {
      assert a + b == b;
    } else {
      EraseConcat(a[1..], b);
      assert (a + b)[1..] == a[1..] + b;
    }
  }

  predicate EndsInSpace(s: seq<Byte>) {
    s != [] && s[|s| - 1] == SPACE
  }

  /** The two names agree up to spaces, and neither has a space at its end. */
  predicate Equivalent(a: seq<Byte>, b: seq<Byte>) {
    Erase(a) == Erase(b) && !EndsInSpace(a) && !EndsInSpace(b)
  }

  /** Where the skip loop stops: at `l`, or at the first non-space from `f` on. */
  function SkipSpaces(t: CString, f: nat, l: nat): (g: nat)
    requires f <= |t|
    ensures f <= g <= |t|
    decreases |t| - f
  {
    if At(t, f) == SPACE && f != l then SkipSpaces(t, f + 1, l) else f
  }

  /** The characters of `t` from `f` to `l`, without the spaces. */
  function Erased(t: CString, f: nat, l: nat): (e: seq<Byte>)
    requires f <= l <= |t|
    ensures f == l ==> e == []
    decreases l - f
  {
    if f == l then [] else if t[f] == SPACE then Erased(t, f + 1, l) else [t[f]] + Erased(t, f + 1, l)
  }

  lemma {:induction false} ErasedIs(t: CString, f: nat, l: nat)
    requires f <= l <= |t|
    ensures Erased(t, f, l) == Erase(t[f..l])
    decreases l - f
  {
    if f < l {
      ErasedIs(t, f + 1, l);
      assert t[f..l][1..] == t[f + 1..l];
    }
  }

  /** There are characters from `f` to `l`, and the last of them is a space. */
  predicate SpaceBefore(t: CString, f: nat, l: nat)
    requires l <= |t|
  {
    f < l && t[l - 1] == SPACE
  }

  /** Skipping spaces, up to a stop or without meeting it, keeps what is left to compare. */
  lemma {:induction false} SkipErased(t: CString, f: nat, l: nat)
    requires f <= |t| && l <= |t|
    ensures var g := SkipSpaces(t, f, l);
            && (f <= l ==> g <= l && Erased(t, f, l) == Erased(t, g, l))
            && Erased(t, f, |t|) == Erased(t, g, |t|)
            && (g != l && g < |t| ==> t[g] != SPACE)
            && (f < g ==> t[g - 1] == SPACE)
    decreases |t| - f
  {
    if At(t, f) == SPACE && f != l {
      SkipErased(t, f + 1, l);
    }
  }

  lemma {:induction false} LastErased(t: CString, f: nat, l: nat)
    requires f < l <= |t| && t[l - 1] != SPACE
    ensures Erased(t, f, l) != []
    decreases l - f
  {
    if f + 1 < l {
      LastErased(t, f + 1, l);
    }
  }

  /** What `SWIG_TypeNameComp` returns when its pointers stand at `f1` and `f2`. */
  function NameComp(t1: CString, f1: nat, l1: nat, t2: CString, f2: nat, l2: nat): Outcome
    requires l1 <= |t1| && l2 <= |t2|
    decreases |t1| + 1 - f1
  {
    if f1 == l1 || f2 == l2 then Ok((l1 - f1) - (l2 - f2))
    else if f1 > |t1| || f2 > |t2| then Overrun
    else
      var g1, g2 := SkipSpaces(t1, f1, l1), SkipSpaces(t2, f2, l2);
      if At(t1, g1) != At(t2, g2) then Ok(if Rank(true, At(t1, g1)) > Rank(true, At(t2, g2)) then 1 else -1)
      else NameComp(t1, g1 + 1, l1, t2, g2 + 1, l2)
  }

  method TypeNameComp(t1: CString, from1: nat, l1: nat, t2: CString, from2: nat, l2: nat) returns (r: Outcome)
    requires from1 <= l1 <= |t1| && from2 <= l2 <= |t2|
    ensures r == NameComp(t1, from1, l1, t2, from2, l2)
  {
    var f1: nat, f2: nat := from1, from2;
    while f1 != l1 && f2 != l2
      invariant NameComp(t1, from1, l1, t2, from2, l2) == NameComp(t1, f1, l1, t2, f2, l2)
      decreases |t1| + 1 - f1
    {
      if f1 > |t1| || f2 > |t2| {
        return Overrun;
      }
      ghost var g1: nat, g2: nat := f1, f2;
      while At(t1, f1) == SPACE && f1 != l1
        invariant f1 <= |t1| && SkipSpaces(t1, f1, l1) == SkipSpaces(t1, g1, l1)
        decreases |t1| - f1
      {
        f1 := f1 + 1;
      }
      while At(t2, f2) == SPACE && f2 != l2
        invariant f2 <= |t2| && SkipSpaces(t2, f2, l2) == SkipSpaces(t2, g2, l2)
        decreases |t2| - f2
      {
        f2 := f2 + 1;
      }
      if At(t1, f1) != At(t2, f2) {
        return Ok(if Rank(true, At(t1, f1)) > Rank(true, At(t2, f2)) then 1 else -1);
      }
      f1, f2 := f1 + 1, f2 + 1;
    }
    r := Ok((l1 - f1) - (l2 - f2));
  }

  /** Once a pointer has run past its end the comparison can no longer report equality. */
  lemma {:induction false} PastEndNeverEqual(t1: CString, f1: nat, l1: nat, t2: CString, f2: nat, l2: nat)
    requires l1 <= |t1| && l2 <= |t2|
    requires f1 > l1 || f2 > l2
    ensures NameComp(t1, f1, l1, t2, f2, l2) != Ok(0)
    decreases |t1| + 1 - f1
  {
    if f1 != l1 && f2 != l2 && f1 <= |t1| && f2 <= |t2| {
      var g1, g2 := SkipSpaces(t1, f1, l1), SkipSpaces(t2, f2, l2);
      if At(t1, g1) == At(t2, g2) {
        PastEndNeverEqual(t1, g1 + 1, l1, t2, g2 + 1, l2);
      }
    }
  }

  /** What a return value says about the two names it was computed from. */
  ghost predicate Tells(r: Outcome, a: seq<Byte>, b: seq<Byte>) {
    && (r == Ok(0) <==> Equivalent(a, b))
    && (!EndsInSpace(a) && !EndsInSpace(b) ==> r.Ok? && Sign(r.value) == Lex(true, Erase(a), Erase(b)))
  }

  /** The same, for the names between two positions each. */
  ghost predicate TellsAt(r: Outcome, t1: CString, f1: nat, l1: nat, t2: CString, f2: nat, l2: nat)
    requires f1 <= l1 <= |t1| && f2 <= l2 <= |t2|
  {
    var e1, e2 := Erased(t1, f1, l1), Erased(t2, f2, l2);
    var spaces := SpaceBefore(t1, f1, l1) || SpaceBefore(t2, f2, l2);
    (r == Ok(0) <==> e1 == e2 && !spaces) && (!spaces ==> r.Ok? && Sign(r.value) == Lex(true, e1, e2))
  }

  lemma UsedUpTells(t1: CString, f1: nat, l1: nat, t2: CString, f2: nat, l2: nat)
    requires f1 <= l1 <= |t1| && f2 <= l2 <= |t2| && (f1 == l1 || f2 == l2)
    ensures TellsAt(Ok((l1 - f1) - (l2 - f2)), t1, f1, l1, t2, f2, l2)
  {
    if f1 < l1 && t1[l1 - 1] != SPACE {
      LastErased(t1, f1, l1);
    }
    if f2 < l2 && t2[l2 - 1] != SPACE {
      LastErased(t2, f2, l2);
    }
  }

  lemma HeadsOrder(c: Byte, a: seq<Byte>, d: Byte, b: seq<Byte>)
    ensures [c] + a == [d] + b <==> c == d && a == b
    ensures Lex(true, [c] + a, [d] + b) ==
              if c == d then Lex(true, a, b) else if Rank(true, c) > Rank(true, d) then 1 else -1
  {
    assert ([c] + a)[1..] == a && ([d] + b)[1..] == b;
    assert ([c] + a)[0] == c && ([d] + b)[0] == d;
  }

  /**
   * The comparison reports equality exactly for names that agree up to spaces and do not end in
   * one, and it orders all names that do not end in a space.
   */
  lemma {:induction false} NameCompTells(t1: CString, f1: nat, l1: nat, t2: CString, f2: nat, l2: nat)
    requires f1 <= l1 <= |t1| && f2 <= l2 <= |t2|
    ensures TellsAt(NameComp(t1, f1, l1, t2, f2, l2), t1, f1, l1, t2, f2, l2)
    decreases l1 - f1
  {
    if f1 == l1 || f2 == l2 {
      UsedUpTells(t1, f1, l1, t2, f2, l2);
    } else {
      var g1, g2 := SkipSpaces(t1, f1, l1), SkipSpaces(t2, f2, l2);
      SkipErased(t1, f1, l1);
      SkipErased(t2, f2, l2);
      if g1 < l1 && g2 < l2 {
        HeadsOrder(t1[g1], Erased(t1, g1 + 1, l1), t2[g2], Erased(t2, g2 + 1, l2));
        if t1[g1] == t2[g2] {
          NameCompTells(t1, g1 + 1, l1, t2, g2 + 1, l2);
        }
      } else if At(t1, g1) == At(t2, g2) {
        PastEndNeverEqual(t1, g1 + 1, l1, t2, g2 + 1, l2);
      }
    }
  }

  lemma NameCompMeaning(t1: CString, f1: nat, l1: nat, t2: CString, f2: nat, l2: nat)
    requires f1 <= l1 <= |t1| && f2 <= l2 <= |t2|
    ensures Tells(NameComp(t1, f1, l1, t2, f2, l2), t1[f1..l1], t2[f2..l2])
  {
    hide NameComp, Lex, Erase, Erased;
    NameCompTells(t1, f1, l1, t2, f2, l2);
    ErasedIs(t1, f1, l1);
    ErasedIs(t2, f2, l2);
  }

  /** With a whole, not space-ended second string no read leaves either string. */
  lemma {:induction false} NameCompInBounds(t1: CString, f1: nat, l1: nat, t2: CString, f2: nat)
    requires l1 <= |t1| && f1 <= |t1| && f2 <= |t2| && !EndsInSpace(t2)
    ensures NameComp(t1, f1, l1, t2, f2, |t2|).Ok?
    decreases |t1| - f1
  {
    if f1 != l1 && f2 != |t2| {
      var g1, g2 := SkipSpaces(t1, f1, l1), SkipSpaces(t2, f2, |t2|);
      SkipErased(t2, f2, |t2|);
      if At(t1, g1) == At(t2, g2) {
        NameCompInBounds(t1, g1 + 1, l1, t2, g2 + 1);
      }
    }
  }

  /** The names agree for `k` characters that are no spaces. */
  predicate AgreeFor(t1: CString, f1: nat, t2: CString, f2: nat, k: nat)
    requires f1 + k <= |t1| && f2 + k <= |t2|
  {
    t1[f1..f1 + k] == t2[f2..f2 + k] && SPACE !in t1[f1..f1 + k]
  }

  lemma AgreeAfterOne(t1: CString, f1: nat, t2: CString, f2: nat, k: nat)
    requires 0 < k && f1 + k <= |t1| && f2 + k <= |t2| && AgreeFor(t1, f1, t2, f2, k)
    ensures t1[f1] == t2[f2] != SPACE && AgreeFor(t1, f1 + 1, t2, f2 + 1, k - 1)
  {
    assert t1[f1] == t1[f1..f1 + k][0] == t2[f2..f2 + k][0] == t2[f2];
    assert t1[f1 + 1..f1 + k] == t1[f1..f1 + k][1..];
    assert t2[f2 + 1..f2 + k] == t2[f2..f2 + k][1..];
  }

  /** At the first difference of two characters the value says which one is greater as a signed character. */
  lemma {:induction false} DifferenceValue(t1: CString, f1: nat, l1: nat, t2: CString, f2: nat, l2: nat, k: nat)
    requires f1 + k < l1 <= |t1| && f2 + k < l2 <= |t2| && AgreeFor(t1, f1, t2, f2, k)
    requires t1[f1 + k] != t2[f2 + k] && t1[f1 + k] != SPACE && t2[f2 + k] != SPACE
    ensures NameComp(t1, f1, l1, t2, f2, l2) ==
              Ok(if SignedChar(t1[f1 + k]) > SignedChar(t2[f2 + k]) then 1 else -1)
    decreases k
  {
    if k > 0 {
      AgreeAfterOne(t1, f1, t2, f2, k);
      DifferenceValue(t1, f1 + 1, l1, t2, f2 + 1, l2, k - 1);
    }
  }

  /** Where one name ends and the names agree so far, the value is the difference of their lengths. */
  lemma {:induction false} PrefixValue(t1: CString, f1: nat, l1: nat, t2: CString, f2: nat, l2: nat, k: nat)
    requires f1 + k <= l1 <= |t1| && f2 + k <= l2 <= |t2| && AgreeFor(t1, f1, t2, f2, k)
    requires f1 + k == l1 || f2 + k == l2
    ensures NameComp(t1, f1, l1, t2, f2, l2) == Ok((l1 - f1) - (l2 - f2))
    decreases k
  {
    if k > 0 {
      AgreeAfterOne(t1, f1, t2, f2, k);
      PrefixValue(t1, f1 + 1, l1, t2, f2 + 1, l2, k - 1);
    }
  }

  // ---------- when the comparison leaves its strings ----------

  /** Past the end of the first name nothing stops its pointer but its terminator. */
  lemma {:induction false} PastOverrun(t1: CString, f1: nat, l1: nat, t2: CString, f2: nat)
    requires l1 < f1 <= |t1| && f2 <= |t2|
    ensures NameComp(t1, f1, l1, t2, f2, |t2|) == Overrun <==>
              SpaceBefore(t2, f2, |t2|) && Erased(t1, f1, |t1|) == Erased(t2, f2, |t2|)
    decreases |t1| - f1
  {
    if f2 < |t2| {
      var g1, g2 := SkipSpaces(t1, f1, l1), SkipSpaces(t2, f2, |t2|);
      SkipErased(t1, f1, l1);
      SkipErased(t2, f2, |t2|);
      if g1 < |t1| && g2 < |t2| {
        HeadsOrder(t1[g1], Erased(t1, g1 + 1, |t1|), t2[g2], Erased(t2, g2 + 1, |t2|));
        if t1[g1] == t2[g2] {
          PastOverrun(t1, g1 + 1, l1, t2, g2 + 1);
        }
      } else if g1 == |t1| && g2 == |t2| {
        assert NameComp(t1, g1 + 1, l1, t2, g2 + 1, |t2|) == Overrun;
      }
    }
  }

  /** Only spaces were left of the first name: the character that follows it is compared. */
  lemma StoppedOverrun(t1: CString, f1: nat, l1: nat, t2: CString, f2: nat)
    requires f1 < l1 <= |t1| && f2 < |t2| && (l1 < |t1| ==> t1[l1] != SPACE) && SkipSpaces(t1, f1, l1) == l1
    ensures NameComp(t1, f1, l1, t2, f2, |t2|) == Overrun <==>
              SpaceBefore(t2, f2, |t2|) && Erased(t1, l1, |t1|) == Erased(t2, f2, |t2|)
  {
    var g2 := SkipSpaces(t2, f2, |t2|);
    SkipErased(t2, f2, |t2|);
    if l1 < |t1| && g2 < |t2| {
      HeadsOrder(t1[l1], Erased(t1, l1 + 1, |t1|), t2[g2], Erased(t2, g2 + 1, |t2|));
      PastOverrun(t1, l1 + 1, l1, t2, g2 + 1);
    } else if l1 == |t1| && g2 == |t2| {
      assert NameComp(t1, l1 + 1, l1, t2, g2 + 1, |t2|) == Overrun;
    }
  }

  /** Whether the name between `f1` and `l1` and the text from `f2` on make both pointers pass their ends. */
  predicate OverrunsFrom(t1: CString, f1: nat, l1: nat, t2: CString, f2: nat)
    requires f1 <= l1 <= |t1| && f2 <= |t2|
  {
    SpaceBefore(t1, f1, l1) && SpaceBefore(t2, f2, |t2|) && Erased(t1, f1, |t1|) == Erased(t2, f2, |t2|)
  }

  lemma PeeledOverrun(t1: CString, f1: nat, l1: nat, t2: CString, f2: nat)
    requires f1 < l1 <= |t1| && f2 < |t2|
    requires SkipSpaces(t1, f1, l1) < l1 && SkipSpaces(t2, f2, |t2|) < |t2|
    ensures var g1, g2 := SkipSpaces(t1, f1, l1), SkipSpaces(t2, f2, |t2|);
            OverrunsFrom(t1, f1, l1, t2, f2) <==> t1[g1] == t2[g2] && OverrunsFrom(t1, g1 + 1, l1, t2, g2 + 1)
  {
    var g1, g2 := SkipSpaces(t1, f1, l1), SkipSpaces(t2, f2, |t2|);
    SkipErased(t1, f1, l1);
    SkipErased(t2, f2, |t2|);
    HeadsOrder(t1[g1], Erased(t1, g1 + 1, |t1|), t2[g2], Erased(t2, g2 + 1, |t2|));
  }

  /**
   * A name, which ends the first string or is followed by a bar, and a whole second string make the
   * comparison read past the terminators exactly when both end in a space and the rest of the first
   * string, from the name on, agrees with the second up to spaces.
   */
  lemma {:induction false} OverrunIff(t1: CString, f1: nat, l1: nat, t2: CString, f2: nat)
    requires f1 <= l1 <= |t1| && f2 <= |t2| && (l1 < |t1| ==> t1[l1] != SPACE)
    ensures NameComp(t1, f1, l1, t2, f2, |t2|) == Overrun <==> OverrunsFrom(t1, f1, l1, t2, f2)
    decreases |t1| - f1
  {
    if f1 < l1 && f2 < |t2| {
      var g1, g2 := SkipSpaces(t1, f1, l1), SkipSpaces(t2, f2, |t2|);
      SkipErased(t1, f1, l1);
      if g1 == l1 {
        StoppedOverrun(t1, f1, l1, t2, f2);
      } else if g2 < |t2| {
        PeeledOverrun(t1, f1, l1, t2, f2);
        if t1[g1] == t2[g2] {
          OverrunIff(t1, g1 + 1, l1, t2, g2 + 1);
        }
      } else {
        SkipErased(t2, f2, |t2|);
      }
    }
  }

  /** For two whole names: they agree up to spaces, and both end in one. */
  lemma WholeOverrunIff(a: CString, b: CString)
    ensures NameComp(a, 0, |a|, b, 0, |b|) == Overrun <==> EndsInSpace(a) && EndsInSpace(b) && Erase(a) == Erase(b)
  {
    OverrunIff(a, 0, |a|, b, 0);
    ErasedIs(a, 0, |a|);
    ErasedIs(b, 0, |b|);
    assert a[0..|a|] == a && b[0..|b|] == b;
  }

  /** Two equal names that both end in a space make the comparison read past both terminators. */
  lemma TrailingSpaceOverruns()
    ensures var s: CString := [97, SPACE]; NameComp(s, 0, 2, s, 0, 2) == Overrun
  {
    var s: CString := [97, SPACE];
    assert SkipSpaces(s, 0, 2) == 0;
    assert SkipSpaces(s, 1, 2) == 2;
    assert NameComp(s, 1, 2, s, 1, 2) == NameComp(s, 3, 2, s, 3, 2) == Overrun;
  }

  /** The first `|` from `i` on, or the end of the string. */
  function BarFrom(s: CString, i: nat): (q: nat)
    requires i <= |s|
    ensures i <= q <= |s| && (q < |s| ==> s[q] == BAR) && forall k :: i <= k < q ==> s[k] != BAR
    decreases |s| - i
  {
    if At(s, i) == NUL || s[i] == BAR then i else BarFrom(s, i + 1)
  }

  /** The `|`-separated names in `s[i..]`; an empty name after the last bar is not one. */
  function AliasesFrom(s: CString, i: nat): seq<seq<Byte>>
    requires i <= |s|
    decreases |s| - i
  {
    if i == |s| then []
    else
      var q := BarFrom(s, i);
      [s[i..q]] + if q < |s| then AliasesFrom(s, q + 1) else []
  }

  /** Some name of a list is equivalent to `name`. */
  predicate AnyEquivalent(all: seq<seq<Byte>>, name: CString) {
    all != [] && (Equivalent(all[0], name) || AnyEquivalent(all[1..], name))
  }

  /** Some alias in `s[i..]` is equivalent to `name`. */
  predicate AliasFrom(s: CString, i: nat, name: CString)
    requires i <= |s|
  {
    AnyEquivalent(AliasesFrom(s, i), name)
  }

  /** `name` is equivalent to one of the aliases listed in `s`. */
  predicate HasAlias(s: CString, name: CString) {
    AliasFrom(s, 0, name)
  }

  ghost predicate SomeEquivalent(all: seq<seq<Byte>>, name: CString) {
    exists k :: 0 <= k < |all| && Equivalent(all[k], name)
  }

  lemma {:induction false} AnyEquivalentMeans(all: seq<seq<Byte>>, name: CString)
    ensures AnyEquivalent(all, name) <==> SomeEquivalent(all, name)
  {
    if all != [] {
      AnyEquivalentMeans(all[1..], name);
      if k :| 0 <= k < |all[1..]| && Equivalent(all[1..][k], name) {
        assert all[k + 1] == all[1..][k];
      }
      if k :| 0 < k < |all| && Equivalent(all[k], name) {
        assert all[1..][k - 1] == all[k];
      }
    }
  }

  /** The query is equivalent to one of the names between the bars. */
  lemma AliasFromMeaning(s: CString, i: nat, name: CString)
    requires i <= |s|
    ensures AliasFrom(s, i, name) <==> SomeEquivalent(AliasesFrom(s, i), name)
  {
    AnyEquivalentMeans(AliasesFrom(s, i), name);
  }

  lemma AliasesSplit(s: CString, i: nat, name: CString)
    requires i < |s|
    ensures var q := BarFrom(s, i);
            AliasFrom(s, i, name) <==> Equivalent(s[i..q], name) || (q < |s| && AliasFrom(s, q + 1, name))
  {
    var q, all := BarFrom(s, i), AliasesFrom(s, i);
    assert AnyEquivalent(all, name) <==> Equivalent(all[0], name) || AnyEquivalent(all[1..], name);
    if q < |s| {
      assert all[1..] == AliasesFrom(s, q + 1);
    } else {
      assert all[1..] == [];
    }
  }

  /** What the loop of `SWIG_TypeCmp` returns from position `i`, when the last comparison said `equiv`. */
  function CmpFrom(nb: CString, i: nat, tb: CString, equiv: int): Outcome
    requires i <= |nb|
    decreases |nb| - i
  {
    if equiv == 0 || i == |nb| then Ok(equiv)
    else
      var q := BarFrom(nb, i);
      var c := NameComp(nb, i, q, tb, 0, |tb|);
      if c == Overrun then Overrun else CmpFrom(nb, if q < |nb| then q + 1 else q, tb, c.value)
  }

  method TypeCmp(nb: CString, tb: CString) returns (r: Outcome)
    ensures r == CmpFrom(nb, 0, tb, 1)
  {
    var equiv := 1;
    var ne: nat := 0;
    while equiv != 0 && At(nb, ne) != NUL
      invariant ne <= |nb| && CmpFrom(nb, 0, tb, 1) == CmpFrom(nb, ne, tb, equiv)
      decreases |nb| - ne
    {
      var start := ne;
      while At(nb, ne) != NUL && nb[ne] != BAR
        invariant start <= ne <= |nb| && BarFrom(nb, start) == BarFrom(nb, ne)
        invariant ne == start ==> At(nb, ne) != NUL
        decreases |nb| - ne
      {
        ne := ne + 1;
      }
      var c := TypeNameComp(nb, start, ne, tb, 0, |tb|);
      if c == Overrun {
        return Overrun;
      }
      equiv := c.value;
      if At(nb, ne) != NUL {
        ne := ne + 1;
      }
    }
    r := Ok(equiv);
  }

  /** The comparison of the name that starts at `k` with a query that ends in a space leaves the strings. */
  predicate OverrunAt(nb: CString, k: nat, tb: CString)
    requires k < |nb|
  {
    SpaceBefore(nb, k, BarFrom(nb, k)) && Erased(nb, k, |nb|) == Erase(tb)
  }

  /** One of the comparisons from position `i` on does. */
  predicate OverrunFrom(nb: CString, i: nat, tb: CString)
    requires i <= |nb|
    decreases |nb| - i
  {
    i < |nb| &&
    var q := BarFrom(nb, i);
    OverrunAt(nb, i, tb) || (q < |nb| && OverrunFrom(nb, q + 1, tb))
  }

  /** The walk over the names in `nb` reads past a terminator. */
  predicate WalkOverruns(nb: CString, tb: CString) {
    EndsInSpace(tb) && OverrunFrom(nb, 0, tb)
  }

  predicate NameStart(nb: CString, i: nat, k: nat)
    requires i <= k < |nb|
  {
    k == i || nb[k - 1] == '|' as int
  }

  lemma {:induction false} OverrunFromMeans(nb: CString, i: nat, tb: CString)
    requires i <= |nb|
    ensures OverrunFrom(nb, i, tb) <==> exists k :: i <= k < |nb| && NameStart(nb, i, k) && OverrunAt(nb, k, tb)
    decreases |nb| - i
  {
    if i < |nb| {
      var q := BarFrom(nb, i);
      assert NameStart(nb, i, i);
      if q < |nb| {
        OverrunFromMeans(nb, q + 1, tb);
        if k :| q + 1 <= k < |nb| && NameStart(nb, q + 1, k) && OverrunAt(nb, k, tb) {
          assert NameStart(nb, i, k);
        }
        if k :| i < k < |nb| && NameStart(nb, i, k) && OverrunAt(nb, k, tb) {
          assert q + 1 <= k && NameStart(nb, q + 1, k);
        }
      }
    }
  }

  /** A name starts at the beginning or behind a bar, and goes on to the next bar or the end. */
  lemma {:induction false} AliasFromMeans(s: CString, i: nat, name: CString)
    requires i <= |s|
    ensures AliasFrom(s, i, name) <==>
              exists k :: i <= k < |s| && NameStart(s, i, k) && Equivalent(s[k..BarFrom(s, k)], name)
    decreases |s| - i
  {
    hide Equivalent, AliasFrom;
    if i < |s| {
      var q := BarFrom(s, i);
      AliasesSplit(s, i, name);
      assert NameStart(s, i, i);
      if q < |s| {
        AliasFromMeans(s, q + 1, name);
        if k :| q + 1 <= k < |s| && NameStart(s, q + 1, k) && Equivalent(s[k..BarFrom(s, k)], name) {
          assert NameStart(s, i, k);
        }
        if k :| i < k < |s| && NameStart(s, i, k) && Equivalent(s[k..BarFrom(s, k)], name) {
          assert q + 1 <= k && NameStart(s, q + 1, k);
        }
      }
    } else {
      NoAliases(s, name);
    }
  }

  lemma NoAliases(s: CString, name: CString)
    ensures !AliasFrom(s, |s|, name)
  {
  }

  /** Without a match the walk returns what the comparison with the last name of the list returned. */
  lemma {:induction false} CmpValue(nb: CString, i: nat, tb: CString, equiv: int)
    requires i < |nb| && equiv != 0 && CmpFrom(nb, i, tb, equiv).Ok? && CmpFrom(nb, i, tb, equiv) != Ok(0)
    ensures exists k :: i <= k < |nb| && NameStart(nb, i, k) && BarFrom(nb, k) + 1 >= |nb|
                        && CmpFrom(nb, i, tb, equiv) == NameComp(nb, k, BarFrom(nb, k), tb, 0, |tb|)
    decreases |nb| - i
  {
    var q := BarFrom(nb, i);
    var c := NameComp(nb, i, q, tb, 0, |tb|);
    if q + 1 < |nb| {
      CmpValue(nb, q + 1, tb, c.value);
      var k :| q + 1 <= k < |nb| && NameStart(nb, q + 1, k) && BarFrom(nb, k) + 1 >= |nb|
               && CmpFrom(nb, q + 1, tb, c.value) == NameComp(nb, k, BarFrom(nb, k), tb, 0, |tb|);
      assert NameStart(nb, i, k);
    } else {
      assert NameStart(nb, i, i);
    }
  }

  /**
   * The walk leaves the strings exactly when the query ends in a space and some name in the list
   * does too, and the list from that name to its end, bars included, agrees with the query up to
   * spaces.
   */
  lemma WalkOverrunsMeans(nb: CString, tb: CString)
    ensures WalkOverruns(nb, tb) <==>
              EndsInSpace(tb) && exists k :: 0 <= k < |nb| && NameStart(nb, 0, k) && OverrunAt(nb, k, tb)
  {
    OverrunFromMeans(nb, 0, tb);
  }

  lemma {:induction false} NoAliasForSpaceEnded(all: seq<seq<Byte>>, name: CString)
    requires EndsInSpace(name)
    ensures !AnyEquivalent(all, name)
  {
    if all != [] {
      NoAliasForSpaceEnded(all[1..], name);
    }
  }

  lemma {:induction false} CmpFindsAlias(nb: CString, i: nat, tb: CString, equiv: int)
    requires i <= |nb| && equiv != 0
    ensures CmpFrom(nb, i, tb, equiv) == Ok(0) <==> AliasFrom(nb, i, tb)
    ensures CmpFrom(nb, i, tb, equiv) == Overrun <==> EndsInSpace(tb) && OverrunFrom(nb, i, tb)
    decreases |nb| - i
  {
    hide Equivalent, EndsInSpace, NameComp;
    if i < |nb| {
      var q := BarFrom(nb, i);
      var c := NameComp(nb, i, q, tb, 0, |tb|);
      NameAgainst(nb, i, q, tb);
      AliasesSplit(nb, i, tb);
      if EndsInSpace(tb) {
        NoAliasForSpaceEnded(AliasesFrom(nb, i), tb);
      }
      if c.Ok? && c != Ok(0) && q < |nb| {
        CmpFindsAlias(nb, q + 1, tb, c.value);
      }
    }
  }

  /** One name of the list against the query. */
  lemma NameAgainst(nb: CString, i: nat, q: nat, tb: CString)
    requires i < |nb| && q == BarFrom(nb, i)
    ensures var c := NameComp(nb, i, q, tb, 0, |tb|);
            (c == Ok(0) <==> Equivalent(nb[i..q], tb)) && (c == Overrun <==> EndsInSpace(tb) && OverrunAt(nb, i, tb))
  {
    NameCompMeaning(nb, i, q, tb, 0, |tb|);
    OverrunIff(nb, i, q, tb, 0);
    ErasedIs(tb, 0, |tb|);
    assert tb[0..|tb|] == tb;
  }

  /** `SWIG_TypeEquiv`: 1 on a match, 0 otherwise. */
  method TypeEquiv(nb: CString, tb: CString) returns (r: Outcome)
    ensures r == Ok(1) <==> HasAlias(nb, tb)
    ensures r == Overrun <==> WalkOverruns(nb, tb)
    ensures r in {Ok(0), Ok(1), Overrun}
  {
    var c := TypeCmp(nb, tb);
    CmpFindsAlias(nb, 0, tb, 1);
    r := if c == Overrun then Overrun else Ok(if c.value == 0 then 1 else 0);
  }
}
