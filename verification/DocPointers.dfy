/** Callback pointers kept in method documentation: `SWIG_Python_FixMethods` and `SWIG_Python_ConvertFunctionPtr`. */
module DocPointers {
  import opened CStrings
  import opened CastLists
  import opened Registry
  import opened RegistryRuns
  import opened Loader
  import opened PackData
  import opened Interpreters
  import opened Conversion

  const MARKER: CString := Text("swig_ptr: ")

  // ---------- searching text ----------

  predicate OccursAt(s: seq<Byte>, p: seq<Byte>, i: nat) {
    i + |p| <= |s| && s[i..i + |p|] == p
  }

  /** `strstr`: the offset of the first occurrence of `p`. */
  function StrStr(s: seq<Byte>, p: seq<Byte>): (at: Option<nat>)
    ensures at.Some? ==> OccursAt(s, p, at.value)
    ensures at.Some? ==> forall i :: 0 <= i < at.value ==> !OccursAt(s, p, i)
    ensures at.None? ==> forall i :: 0 <= i <= |s| ==> !OccursAt(s, p, i)
  {
    StrStrFrom(s, p, 0)
  }

  function StrStrFrom(s: seq<Byte>, p: seq<Byte>, from: nat): (at: Option<nat>)
    requires from <= |s|
    ensures at.Some? ==> from <= at.value && OccursAt(s, p, at.value)
    ensures at.Some? ==> forall i :: from <= i < at.value ==> !OccursAt(s, p, i)
    ensures at.None? ==> forall i :: from <= i <= |s| ==> !OccursAt(s, p, i)
    decreases |s| - from
  {
    if OccursAt(s, p, from) then Some(from) else if from == |s| then None else StrStrFrom(s, p, from + 1)
  }

  // ---------- patching ----------

  /** `swig_const_info`, as far as it is read here: `pvalue` holds the bytes of a pointer, `slot` is `ptype - types`. */
  datatype ConstInfo = ConstInfo(isPointer: bool, name: CString, pvalue: seq<Byte>, slot: nat)

  predicate NonNull(pointer: seq<Byte>) {
    exists i :: 0 <= i < |pointer| && pointer[i] != 0
  }

  /** The first constant whose name starts `text`; the length of the table when there is none. */
  function FindConst(table: seq<ConstInfo>, text: seq<Byte>): (j: nat)
    ensures j <= |table|
    ensures j < |table| ==> table[j].name <= text
    ensures forall i :: 0 <= i < j ==> !(table[i].name <= text)
  {
    if table == [] || table[0].name <= text then 0 else 1 + FindConst(table[1..], text)
  }

  /** What a documentation string that has a marker at `ldoc` becomes. */
  function Patched(doc: CString, ldoc: nat, pointer: seq<Byte>, name: CString): CString
    requires ldoc <= |doc|
  {
    doc[..ldoc] + MARKER + Framed(pointer, name)
  }

  /** A documentation string after the patch: only one that names a non-null pointer constant changes. */
  function Fixed(doc: Option<CString>, table: seq<ConstInfo>, names: seq<CString>): Option<CString>
    requires forall c :: c in table ==> c.slot < |names|
  {
    var at := if doc.Some? then StrStr(doc.value, MARKER) else None;
    if at.None? then doc
    else
      var j := FindConst(table, doc.value[at.value + |MARKER|..]);
      if j == |table| || !table[j].isPointer || !NonNull(table[j].pvalue) then doc
      else Some(Patched(doc.value, at.value, table[j].pvalue, names[table[j].slot]))
  }

  lemma OccursInside(s: seq<Byte>, p: seq<Byte>, i: nat)
    requires OccursAt(s, p, i)
    ensures i + |p| <= |s|
  {
  }

  lemma SameOccurrence(a: seq<Byte>, b: seq<Byte>, p: seq<Byte>, i: nat, n: nat)
    requires i + |p| <= n && n <= |a| && n <= |b| && a[..n] == b[..n]
    ensures OccursAt(a, p, i) <==> OccursAt(b, p, i)
  {
    forall k | i <= k < i + |p|
      ensures a[k] == b[k]
    {
      assert a[..n][k] == b[..n][k];
    }
    assert a[i..i + |p|] == b[i..i + |p|];
  }

  /** `at` is where the first marker of `doc` begins. */
  ghost predicate FirstMarker(doc: seq<Byte>, at: nat) {
    OccursAt(doc, MARKER, at) && forall i :: 0 <= i < at ==> !OccursAt(doc, MARKER, i)
  }

  lemma FirstMarkerFound(doc: seq<Byte>, at: nat)
    ensures FirstMarker(doc, at) <==> StrStr(doc, MARKER) == Some(at)
  {
    var found := StrStr(doc, MARKER);
    if FirstMarker(doc, at) && found.Some? {
      assert found.value >= at;
    }
  }

  /** `table[j]` is the first constant whose name starts `text`. */
  ghost predicate FirstConst(table: seq<ConstInfo>, text: seq<Byte>, j: nat) {
    j < |table| && table[j].name <= text && forall i :: 0 <= i < j ==> !(table[i].name <= text)
  }

  /** The first marker, at `at`, is followed by the name of a constant, `table[j]` first. */
  ghost predicate MarkedConst(doc: CString, table: seq<ConstInfo>, at: nat, j: nat) {
    FirstMarker(doc, at) && at + |MARKER| <= |doc| && FirstConst(table, doc[at + |MARKER|..], j)
  }

  /** A string without a marker, or whose marker is followed by the name of no constant, stays as it is. */
  lemma FixedKeeps(doc: CString, table: seq<ConstInfo>, names: seq<CString>)
    requires forall c :: c in table ==> c.slot < |names|
    requires forall at: nat, j: nat :: !MarkedConst(doc, table, at, j)
    ensures Fixed(Some(doc), table, names) == Some(doc)
  {
    var at := StrStr(doc, MARKER);
    if at.Some? {
      FirstMarkerFound(doc, at.value);
      assert !MarkedConst(doc, table, at.value, FindConst(table, doc[at.value + |MARKER|..]));
    }
  }

  /**
   * A string whose first marker is followed by the name of a constant: when the first such constant is a
   * pointer that is not null, the text behind the marker becomes an underscore, the digits of the pointer
   * and the name of its type; otherwise the string stays as it is.
   */
  lemma FixedPatches(doc: CString, table: seq<ConstInfo>, names: seq<CString>, at: nat, j: nat)
    requires forall c :: c in table ==> c.slot < |names|
    requires MarkedConst(doc, table, at, j)
    ensures var fixed, c := Fixed(Some(doc), table, names), table[j];
            if c.isPointer && (exists i :: 0 <= i < |c.pvalue| && c.pvalue[i] != 0) then
              fixed == Some(doc[..at + |MARKER|] + ['_' as int] + Packed(c.pvalue) + names[c.slot])
            else fixed == Some(doc)
  {
    FirstMarkerFound(doc, at);
    assert FindConst(table, doc[at + |MARKER|..]) == j;
    assert doc[..at + |MARKER|] == doc[..at] + MARKER;
    Joined4(doc[..at], MARKER, Packed(table[j].pvalue), names[table[j].slot]);
  }

  lemma Joined4(a: seq<Byte>, b: seq<Byte>, c: seq<Byte>, d: seq<Byte>)
    ensures a + b + (['_' as int] + c + d) == a + b + ['_' as int] + c + d
  {
  }

  /** A text that agrees with `doc` up to the end of its first marker has its own first marker there. */
  lemma MarkerStays(doc: seq<Byte>, text: seq<Byte>, at: nat)
    requires StrStr(doc, MARKER) == Some(at) && at + |MARKER| <= |text|
    requires text[..at + |MARKER|] == doc[..at + |MARKER|]
    ensures StrStr(text, MARKER) == Some(at)
  {
    hide OccursAt, StrStrFrom;
    OccursInside(doc, MARKER, at);
    forall i | 0 <= i <= at
      ensures OccursAt(text, MARKER, i) <==> OccursAt(doc, MARKER, i)
    {
      SameOccurrence(text, doc, MARKER, i, at + |MARKER|);
    }
    var found := StrStr(text, MARKER);
    assert OccursAt(text, MARKER, at);
  }

  lemma PatchedParts(doc: CString, at: nat, pointer: seq<Byte>, name: CString)
    requires OccursAt(doc, MARKER, at)
    ensures var text := Patched(doc, at, pointer, name);
            && |text| == at + |MARKER| + 1 + 2 * |pointer| + |name|
            && text[..at + |MARKER|] == doc[..at + |MARKER|]
            && text[at + |MARKER|..] == Framed(pointer, name)
  {
    var text, framed := Patched(doc, at, pointer, name), Framed(pointer, name);
    var n := at + |MARKER|;
    assert doc[..n] == doc[..at] + MARKER;
    assert text == doc[..n] + framed;
  }

  /** The reader's view of a patched text: the marker where it was, then the same pointer and type name. */
  lemma PatchedReadsBack(doc: CString, at: nat, pointer: seq<Byte>, name: CString)
    requires StrStr(doc, MARKER) == Some(at)
    ensures StrStr(Patched(doc, at, pointer, name), MARKER) == Some(at)
    ensures Parse(Patched(doc, at, pointer, name), |pointer|) == Some(Parsed(pointer, Some(name)))
  {
    var text := Patched(doc, at, pointer, name);
    PatchedParts(doc, at, pointer, name);
    MarkerStays(doc, text, at);
    FramedUnpacks(pointer, name);
    var framed := Framed(pointer, name);
    assert text[at + |MARKER| + 1..] == framed[1..];
    assert text[at + |MARKER| + 1 + 2 * |pointer|..] == framed[1 + 2 * |pointer|..];
  }

  /** A pointer and the name that follows it; no name stands for the caller's own. */
  datatype Parsed = Parsed(pointer: seq<Byte>, name: Option<CString>)

  /** What `SWIG_Python_ConvertFunctionPtr` reads from a documentation string, with pointers of `size` bytes. */
  function Parse(doc: CString, size: nat): Option<Parsed> {
    var at := StrStr(doc, MARKER);
    if at.None? then None
    else
      var desc := at.value + |MARKER|;
      if At(doc, desc) == UNDERSCORE then
        if GoodPairs(doc[desc + 1..], size) < size then None
        else Some(Parsed(Unpacked(doc[desc + 1..], size), Some(doc[desc + 1 + 2 * size..])))
      else if doc[desc..] == NULL_TEXT then Some(Parsed(seq(size, _ => 0), None))
      else None
  }

  /** What is read behind the first marker: an underscore, the digits of a pointer and a name, or "NULL". */
  lemma ParseIs(doc: CString, size: nat, at: nat)
    requires FirstMarker(doc, at) && at + |MARKER| <= |doc|
    ensures var text, parsed := doc[at + |MARKER|..], Parse(doc, size);
            if text != [] && text[0] == '_' as int then
              if 2 * size < |text| && forall i :: 1 <= i < 1 + 2 * size ==> IsHex(text[i]) then
                && parsed.Some? && parsed.value.name == Some(text[1 + 2 * size..])
                && |parsed.value.pointer| == size && Packed(parsed.value.pointer) == text[1..1 + 2 * size]
              else parsed.None?
            else if text == Text("NULL") then parsed == Some(Parsed(seq(size, _ => 0), None))
            else parsed.None?
  {
    FirstMarkerFound(doc, at);
    var desc := at + |MARKER|;
    var text := doc[desc..];
    if text != [] && text[0] == '_' as int {
      var digits := doc[desc + 1..];
      assert digits == text[1..];
      AcceptedIffDigits(digits, size);
      assert forall i :: 0 <= i < |digits| ==> digits[i] == text[1 + i];
      assert (forall i :: 0 <= i < 2 * size && i < |digits| ==> IsHex(digits[i])) <==>
             forall i :: 1 <= i < 1 + 2 * size && i < |text| ==> IsHex(text[i]);
      if GoodPairs(digits, size) == size {
        PackUnpacked(digits, size);
        assert digits[..2 * size] == text[1..1 + 2 * size];
        assert doc[desc + 1 + 2 * size..] == text[1 + 2 * size..];
      }
    }
  }

  // ---------- writing ----------

  /** The search for the constant that a documentation string names. */
  method LookUpConst(table: seq<ConstInfo>, text: seq<Byte>) returns (j: nat)
    ensures j == FindConst(table, text)
  {
    j := 0;
    while j < |table|
      invariant j <= |table| && FindConst(table, text) == j + FindConst(table[j..], text)
    {
      if table[j].name <= text {
        return;
      }
      assert table[j..][1..] == table[j + 1..];
      j := j + 1;
    }
  }

  /** Builds the patched text; text and terminator fill the allocation to its last byte. */
  method WriteDoc(doc: CString, ldoc: nat, pointer: seq<Byte>, name: CString) returns (ndoc: array<Byte>)
    requires ldoc <= |doc|
    ensures fresh(ndoc) && ndoc[..] == Patched(doc, ldoc, pointer, name) + [NUL]
  {
    var ptr := new Byte[|pointer|](i requires 0 <= i < |pointer| => pointer[i]);
    assert ptr[..] == pointer;
    var lptr := |name| + 2 * |pointer| + 2;
    ndoc := new Byte[ldoc + lptr + 10];
    forall i | 0 <= i < ldoc {
      ndoc[i] := doc[i];
    }
    var buff := ldoc;
    forall i | 0 <= i < 10 {
      ndoc[buff + i] := MARKER[i];
    }
    buff := buff + 10;
    ghost var before, behind := ndoc[..buff], ndoc[buff + |Framed(pointer, name)| + 1..];
    assert before == doc[..ldoc] + MARKER && behind == [];
    var ok := PackVoidPtr(ndoc, buff, ptr, name, lptr);
    assert ptr[..] == pointer;
    assert ndoc[..] == before + Framed(pointer, name) + [NUL] + behind;
  }

  /** One method of the table. */
  method FixDoc(doc: Option<CString>, table: seq<ConstInfo>, names: seq<CString>) returns (fixed: Option<CString>)
    requires forall c :: c in table ==> c.slot < |names|
    ensures fixed == Fixed(doc, table, names)
  {
    fixed := doc;
    if doc.Some? {
      var c := StrStr(doc.value, MARKER);
      if c.Some? {
        var j := LookUpConst(table, doc.value[c.value + |MARKER|..]);
        if j < |table| && table[j].isPointer && NonNull(table[j].pvalue) {
          var ndoc := WriteDoc(doc.value, c.value, table[j].pvalue, names[table[j].slot]);
          ghost var text := Patched(doc.value, c.value, table[j].pvalue, names[table[j].slot]);
          UpToNulReads(text, []);
          assert ndoc[..] == text + [NUL] + [];
          fixed := Some(UpToNul(ndoc[..]));
        }
      }
    }
  }

  /** `SWIG_Python_FixMethods` on the documentation strings of a method table. */
  method FixMethods(docs: array<Option<CString>>, table: seq<ConstInfo>, names: seq<CString>)
    requires forall c :: c in table ==> c.slot < |names|
    modifies docs
    ensures forall i :: 0 <= i < docs.Length ==> docs[i] == Fixed(old(docs[i]), table, names)
  {
    for i := 0 to docs.Length
      invariant forall k :: i <= k < docs.Length ==> docs[k] == old(docs[k])
      invariant forall k :: 0 <= k < i ==> docs[k] == Fixed(old(docs[k]), table, names)
    {
      var doc := FixDoc(docs[i], table, names);
      docs[i] := doc;
    }
  }

  // ---------- reading ----------

  /** The pointer that some bytes hold, least significant first. */
  function PointerValue(bytes: seq<Byte>): nat {
    if bytes == [] then 0 else bytes[0] + 256 * PointerValue(bytes[1..])
  }

  function Power256(n: nat): (p: nat)
    ensures p > 0
  {
    if n == 0 then 1 else 256 * Power256(n - 1)
  }

  lemma NestedQuotient(b: Byte, rest: nat, p: nat)
    requires p > 0
    ensures (b + 256 * rest) / (256 * p) == rest / p
  {
    var q, r := rest / p, rest % p;
    assert rest == p * q + r;
    assert b + 256 * rest == (256 * p) * q + (b + 256 * r) && b + 256 * r < 256 * p;
    Quotient(256 * p, q, b + 256 * r);
  }

  lemma Quotient(d: nat, q: nat, r: nat)
    requires r < d
    ensures (d * q + r) / d == q
  {
    var n := d * q + r;
    var k := n / d - q;
    assert n == d * (n / d) + n % d;
    assert d * k == d * (n / d) - d * q == r - n % d;
    assert k >= 1 ==> d * k >= d;
    assert k <= -1 ==> d * k <= 0 - d;
  }

  /** The byte at place `i` of a pointer is its digit to the base 256 at that place. */
  lemma {:induction false} PointerDigit(bytes: seq<Byte>, i: nat)
    requires i < |bytes|
    ensures PointerValue(bytes) / Power256(i) % 256 == bytes[i]
    ensures PointerValue(bytes) < Power256(|bytes|)
  {
    if i > 0 {
      PointerDigit(bytes[1..], i - 1);
      NestedQuotient(bytes[0], PointerValue(bytes[1..]), Power256(i - 1));
    } else if |bytes| > 1 {
      PointerDigit(bytes[1..], 0);
    }
  }

  /** The part that reads the text. */
  method ReadPointer(doc: CString, size: nat) returns (parsed: Option<Parsed>)
    ensures parsed == Parse(doc, size)
  {
    hide OccursAt, StrStrFrom, Unpacked;
    var desc := StrStr(doc, MARKER);
    if desc.None? {
      return None;
    }
    OccursInside(doc, MARKER, desc.value);
    var at := desc.value + |MARKER|;
    var vptr := new Byte[size];
    var rest := UnpackDataName(doc, at, vptr, size);
    match rest {
      case Rejected =>
        parsed := None;
      case GivenName =>
        assert doc[at..] == NULL_TEXT && vptr[..] == seq(size, _ => 0);
        parsed := Some(Parsed(vptr[..], None));
      case From(offset) =>
        assert vptr[..] == Unpacked(doc[at + 1..], size);
        parsed := Some(Parsed(vptr[..], Some(doc[offset..])));
    }
  }

  /** The same, beside an interpreter. */
  method ReadBeside(it: Interpreter, doc: CString, size: nat, ghost history: seq<Op>, ghost s: Registry)
    returns (parsed: Option<Parsed>)
    requires OnlyLookups(it, history, s)
    ensures OnlyLookups(it, history, s) && parsed == Parse(doc, size)
  {
    hide OnlyLookups;
    ghost var model := it.Model();
    ghost var ring, statics, records := model.ring, Statics(model.loads), Records(model.loads);
    assert allocated(ring);
    parsed := ReadPointer(doc, size);
    assert unchanged(it) && unchanged(ring) && unchanged(statics) && unchanged(records);
  }

  /**
   * `SWIG_Python_ConvertFunctionPtr` for a function object: the pointer kept in its documentation,
   * converted from the type named there.
   */
  method ConvertFunctionPtr(it: Interpreter, doc: Option<CString>, ty: TypeInfo?, size: nat,
          ghost history: seq<Op>, ghost s: Registry)
    returns (to: Option<Converted>)
    requires OnlyLookups(it, history, s) && SharedTarget(s, ty)
    modifies it`head, it`cache, it`history, Wanted(ty)`cast, Wanted(ty)`chain, Wanted(ty)`sources
    modifies Records(s.loads)`next, Records(s.loads)`prev
    ensures OnlyLookups(it, history, s)
    ensures var parsed := if doc.None? || ty == null then None else Parse(doc.value, size);
            if parsed.None? then to.None?
            else
              var name := if parsed.value.name.Some? then parsed.value.name.value else ty.name;
              && (to.Some? <==> DeclaredBy(history, name, ty.name))
              && (to.Some? ==> CastByName(s.loads, name, ty.name, PointerValue(parsed.value.pointer), to.value))
  {
    hide OnlyLookups, SharedTarget, RecordOf, CastByName;
    if doc.None? || ty == null {
      return None;
    }
    var parsed := ReadBeside(it, doc.value, size, history, s);
    if parsed.None? {
      return None;
    }
    var desc := if parsed.value.name.Some? then parsed.value.name.value else ty.name;
    var tc := LookUp(it, desc, ty, null, [], history, s);
    to := None;
    if tc != null {
      to := Some(TypeCast(tc, PointerValue(parsed.value.pointer)));
      CastsByName(s.loads, tc, desc, ty.name, PointerValue(parsed.value.pointer));
    }
  }
}
