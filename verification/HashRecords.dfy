/** Salted hash records: making one, checking a plaintext against it, and keeping it in a table. */
module HashRecords {
  import opened CStrings
  import opened PackData
  import opened Base64

  const SALT_LENGTH: nat := 16
  const EVP_MAX_MD_SIZE: nat := 64

  /** What a digest gives: at least one byte, at most `EVP_MAX_MD_SIZE`. */
  type Md = s: seq<Byte> | 0 < |s| <= EVP_MAX_MD_SIZE witness [0]

  /** The record `Hash`; both fields are C strings in buffers of `EVP_MAX_MD_SIZE * 2 + 1` bytes. */
  datatype Hash = Hash(hash: CString, salt: CString)

  predicate FitsBuffer(s: CString) {
    |s| <= EVP_MAX_MD_SIZE * 2
  }

  // ---------- the salt ----------

  /** What `RAND_bytes` delivers: sixteen bytes at first, then for every place the bytes drawn again. */
  datatype Draws = Draws(first: seq<Byte>, again: seq<seq<Byte>>)

  /** Every place gets a byte other than zero sooner or later. */
  ghost predicate Fair(d: Draws) {
    && |d.first| == |d.again| == SALT_LENGTH
    && forall i :: 0 <= i < SALT_LENGTH ==> NonZeroIn(d.first[i], d.again[i])
  }

  ghost predicate NonZeroIn(b: Byte, again: seq<Byte>) {
    b != 0 || exists j :: 0 <= j < |again| && again[j] != 0
  }

  /** The first byte other than zero. */
  function FirstNonZero(b: Byte, again: seq<Byte>): (r: Byte)
    requires NonZeroIn(b, again)
    ensures r != 0 && (b != 0 ==> r == b)
    ensures b == 0 ==> exists j :: 0 <= j < |again| && FirstAt(again, j) && again[j] == r
    decreases |again|
  {
    if b != 0 then b
    else
      var rest := FirstNonZero(again[0], again[1..]);
      assert again[0] != 0 ==> FirstAt(again, 0);
      assert forall j :: 0 <= j < |again[1..]| && again[0] == 0 && FirstAt(again[1..], j) ==> FirstAt(again, j + 1);
      rest
  }

  /** Draw `j` is the first one that is not zero. */
  ghost predicate FirstAt(again: seq<Byte>, j: nat)
    requires j < |again|
  {
    again[j] != 0 && forall i :: 0 <= i < j ==> again[i] == 0
  }

  function Salt(d: Draws): (salt: CString)
    requires Fair(d)
    ensures |salt| == SALT_LENGTH
    ensures forall i :: 0 <= i < SALT_LENGTH ==> salt[i] == FirstNonZero(d.first[i], d.again[i])
  {
    seq(SALT_LENGTH, i requires 0 <= i < SALT_LENGTH => FirstNonZero(d.first[i], d.again[i]))
  }

  /**
   * `generateRandomSalt`: sixteen bytes other than zero, and a terminator behind them. In a buffer of
   * just `SALT_LENGTH` bytes the terminator has no place: its write is the one that falls outside.
   */
  method GenerateRandomSalt(salt: array<Byte>, d: Draws) returns (inBounds: bool)
    requires salt.Length >= SALT_LENGTH && Fair(d)
    modifies salt
    ensures salt[..SALT_LENGTH] == Salt(d)
    ensures inBounds <==> salt.Length > SALT_LENGTH
    ensures inBounds ==> salt[SALT_LENGTH] == NUL && salt[SALT_LENGTH + 1..] == old(salt[SALT_LENGTH + 1..])
  {
    ghost var behind := salt[SALT_LENGTH..];
    var randBytes := new Byte[SALT_LENGTH](i requires 0 <= i < SALT_LENGTH => d.first[i]);
    for i := 0 to SALT_LENGTH
      invariant randBytes[i..] == d.first[i..]
      invariant salt[..i] == Salt(d)[..i] && salt[SALT_LENGTH..] == behind
    {
      assert randBytes[i] == d.first[i];
      ghost var rest := randBytes[i + 1..];
      assert rest == randBytes[i..][1..] == d.first[i + 1..];
      var j := 0;
      while randBytes[i] == 0
        invariant j <= |d.again[i]| && NonZeroIn(randBytes[i], d.again[i][j..])
        invariant FirstNonZero(randBytes[i], d.again[i][j..]) == FirstNonZero(d.first[i], d.again[i])
        invariant randBytes[i + 1..] == rest && salt[..i] == Salt(d)[..i] && salt[SALT_LENGTH..] == behind
        decreases |d.again[i]| - j
      {
        randBytes[i] := d.again[i][j];
        j := j + 1;
      }
      salt[i] := randBytes[i];
      assert salt[i] == Salt(d)[i];
      assert salt[..i + 1] == salt[..i] + [salt[i]];
    }
    inBounds := salt.Length > SALT_LENGTH;
    if inBounds {
      salt[SALT_LENGTH] := NUL;
      assert salt[SALT_LENGTH + 1..] == behind[1..];
    }
  }

  // ---------- making a record ----------

  /** A record, or what stops the program: a salt that does not decode, that ends too soon, or that is too long. */
  datatype Outcome = Made(record: Hash) | InvalidSalt | ShortSalt | LongSalt

  /** The hexadecimal digest of sixteen bytes of salt followed by the text. */
  function HexDigest(digest: seq<Byte> -> Md, salt: seq<Byte>, text: CString): CString {
    Packed(digest(salt + text))
  }

  /** What `sha3_256` makes of a text and a salt; no salt, or an empty one, asks for a fresh one. */
  function Sha3(digest: seq<Byte> -> Md, text: CString, salt: Option<CString>, generated: CString): Outcome
    requires |generated| == SALT_LENGTH
  {
    if salt.None? || salt.value == [] then Made(Hash(HexDigest(digest, generated, text), Encode(generated)))
    else
      var decoded := Decode(salt.value);
      if decoded.None? then InvalidSalt
      else if |decoded.value| + 1 < SALT_LENGTH then ShortSalt
      else if !FitsBuffer(salt.value) then LongSalt
      else Made(Hash(HexDigest(digest, (decoded.value + [NUL])[..SALT_LENGTH], text), salt.value))
  }

  /** The loop that prints the digest, two digits and a terminator at a time. */
  method PrintHex(md: Md, hash: array<Byte>)
    requires hash.Length == EVP_MAX_MD_SIZE * 2 + 1
    modifies hash
    ensures hash[..2 * |md|] == Packed(md) && hash[2 * |md|] == NUL
  {
    for i := 0 to |md|
      invariant hash[..2 * i] == Packed(md[..i])
      invariant i > 0 ==> hash[2 * i] == NUL
    {
      var n := 2 * i;
      hash[n], hash[n + 1], hash[n + 2] := HexDigit(md[i] / 16), HexDigit(md[i] % 16), NUL;
      assert hash[..n + 2] == hash[..n] + [hash[n], hash[n + 1]];
      PackedOneMore(md[..i], md[i]);
      assert md[..i + 1] == md[..i] + [md[i]];
    }
    assert md[..|md|] == md;
  }

  /** The text of a digest, in the buffer of a record. */
  method WriteHex(md: Md) returns (text: CString)
    ensures text == Packed(md)
  {
    var hash := new Byte[EVP_MAX_MD_SIZE * 2 + 1];
    PrintHex(md, hash);
    ghost var n := 2 * |md|;
    UpToNulReads(Packed(md), hash[n + 1..]);
    assert hash[..] == hash[..n] + [hash[n]] + hash[n + 1..];
    text := UpToNul(hash[..]);
  }

  /**
   * The sixteen bytes of salt to digest and the salt of the record, or the failure that comes first. The
   * buffer of a fresh salt has no place for its terminator, which `overrun` says; what is read from the
   * buffer then is taken to end with the terminator written behind it.
   */
  method SaltToUse(salt: Option<CString>, d: Draws)
    returns (failure: Option<Outcome>, digested: seq<Byte>, recorded: CString, overrun: bool)
    requires Fair(d)
    ensures overrun <==> salt.None? || salt.value == []
    ensures if salt.None? || salt.value == [] then failure.None? && digested == Salt(d) && recorded == Encode(Salt(d))
            else
              var decoded := Decode(salt.value);
              if decoded.None? then failure == Some(InvalidSalt)
              else if |decoded.value| + 1 < SALT_LENGTH then failure == Some(ShortSalt)
              else if !FitsBuffer(salt.value) then failure == Some(LongSalt)
              else failure.None? && digested == (decoded.value + [NUL])[..SALT_LENGTH] && recorded == salt.value
  {
    failure, digested, recorded, overrun := None, [], [], false;
    if salt.Some? && |salt.value| > 0 {
      var decoded := DecodeBase64ToStr(salt.value);
      if decoded.None? {
        failure := Some(InvalidSalt);
        return;
      }
      var originalSalt := decoded.value + [NUL];
      if |originalSalt| < SALT_LENGTH {
        failure := Some(ShortSalt);
        return;
      }
      digested := originalSalt[..SALT_LENGTH];
      if !FitsBuffer(salt.value) {
        failure := Some(LongSalt);
        return;
      }
      recorded := salt.value;
    } else {
      var generatedSalt := new Byte[SALT_LENGTH];
      var inBounds := GenerateRandomSalt(generatedSalt, d);
      overrun := !inBounds;
      digested := generatedSalt[..SALT_LENGTH];
      UpToNulReads(digested, []);
      assert digested + [NUL] == digested + [NUL] + [];
      recorded := EncodeBase64FromStr(UpToNul(digested + [NUL]));
    }
  }

  /** `sha3_256`, when every call into the digest library succeeds. */
  method Sha3_256(digest: seq<Byte> -> Md, str: CString, salt: Option<CString>, d: Draws)
    returns (outcome: Outcome, overrun: bool)
    requires Fair(d)
    ensures outcome == Sha3(digest, str, salt, Salt(d))
    ensures overrun <==> salt.None? || salt.value == []
  {
    var failure, digested, recorded;
    failure, digested, recorded, overrun := SaltToUse(salt, d);
    if failure.Some? {
      outcome := failure.value;
      return;
    }
    var hash := WriteHex(digest(digested + str));
    outcome := Made(Hash(hash, recorded));
  }

  // ---------- checking a plaintext ----------

  /** `compareHashes`; nothing when making the record to compare with fails. */
  method CompareHashes(digest: seq<Byte> -> Md, plaintext: CString, hash: Hash, d: Draws)
    returns (equal: Option<bool>, overrun: bool)
    requires Fair(d)
    ensures overrun <==> hash.salt == []
    ensures equal == Accepts(digest, plaintext, hash, Salt(d))
  {
    var computed;
    computed, overrun := Sha3_256(digest, plaintext, Some(hash.salt), d);
    if !computed.Made? {
      equal := None;
      return;
    }
    LexZeroIsEqual(false, computed.record.hash, hash.hash);
    equal := Some(StrCmp(computed.record.hash, hash.hash) == 0);
  }

  function Accepts(digest: seq<Byte> -> Md, plaintext: CString, hash: Hash, generated: CString): Option<bool>
    requires |generated| == SALT_LENGTH
  {
    var computed := Sha3(digest, plaintext, Some(hash.salt), generated);
    if computed.Made? then Some(computed.record.hash == hash.hash) else None
  }

  lemma {:induction false} PackedInjective(a: seq<Byte>, b: seq<Byte>)
    ensures Packed(a) == Packed(b) <==> a == b
  {
    UnpackPacked(a, []);
    UnpackPacked(b, []);
    assert Packed(a) + [] == Packed(a) && Packed(b) + [] == Packed(b);
    if Packed(a) == Packed(b) {
      assert |a| == |b|;
    }
  }

  /**
   * A record made with a fresh salt accepts a text exactly when the two digests agree, so it accepts the
   * text it was made from: the salt survives its trip through Base64, all sixteen bytes of it.
   */
  lemma FreshRecordAccepts(digest: seq<Byte> -> Md, text: CString, salt: CString, other: CString, generated: CString)
    requires |salt| == SALT_LENGTH && |generated| == SALT_LENGTH
    ensures Sha3(digest, text, None, salt).Made?
    ensures FitsBuffer(Sha3(digest, text, None, salt).record.hash)
    ensures FitsBuffer(Sha3(digest, text, None, salt).record.salt)
    ensures Accepts(digest, other, Sha3(digest, text, None, salt).record, generated)
            == Some(digest(salt + other) == digest(salt + text))
  {
    var record := Sha3(digest, text, None, salt).record;
    EncodedShape(salt);
    RoundTrip(salt);
    assert (salt + [NUL])[..SALT_LENGTH] == salt;
    PackedInjective(digest(salt + other), digest(salt + text));
  }

  /** The text of a fresh record: two lower-case digits for each byte of the digest of salt and text, in order. */
  lemma FreshRecordText(digest: seq<Byte> -> Md, text: CString, salt: CString, i: nat)
    requires |salt| == SALT_LENGTH && i < |digest(salt + text)|
    ensures var md, record := digest(salt + text), Sha3(digest, text, None, salt).record;
            && |record.hash| == 2 * |md| && record.salt == Encode(salt)
            && record.hash[2 * i] == "0123456789abcdef"[md[i] / 16] as int
            && record.hash[2 * i + 1] == "0123456789abcdef"[md[i] % 16] as int
  {
    PackedDigits(digest(salt + text), i);
  }

  /** A given salt counts with its first sixteen bytes, its terminator included; a shorter one fails. */
  lemma GivenSalt(digest: seq<Byte> -> Md, text: CString, bytes: seq<Byte>, generated: CString)
    requires |generated| == SALT_LENGTH && bytes != [] && FitsBuffer(Encode(bytes))
    ensures var outcome := Sha3(digest, text, Some(Encode(bytes)), generated);
            if |bytes| < 15 then outcome == ShortSalt
            else outcome == Made(Hash(Packed(digest((bytes + [0])[..16] + text)), Encode(bytes)))
  {
    RoundTrip(bytes);
    EncodedShape(bytes);
  }

  // ---------- the table ----------

  /** A step on the table `Hashes`, whose primary key is the hash. */
  datatype Step = StoreStep(record: Hash) | RetrieveStep(key: CString) | DeleteStep(key: CString)

  /** The table after a step: storing under a key that is there changes nothing. */
  function Apply(rows: map<CString, CString>, step: Step): map<CString, CString> {
    match step
    case StoreStep(record) => if record.hash in rows then rows else rows[record.hash := record.salt]
    case RetrieveStep(_) => rows
    case DeleteStep(key) => rows - {key}
  }

  function After(rows: map<CString, CString>, steps: seq<Step>): map<CString, CString> {
    if steps == [] then rows else Apply(After(rows, steps[..|steps| - 1]), steps[|steps| - 1])
  }

  function Stored(rows: map<CString, CString>, key: CString): Option<Hash> {
    if key in rows then Some(Hash(key, rows[key])) else None
  }

  class HashTable {
    var rows: map<CString, CString>

    /** Every row came from a record. */
    ghost predicate Valid()
      reads this
    {
      forall k :: k in rows ==> FitsBuffer(k) && FitsBuffer(rows[k])
    }

    constructor ()
      ensures Valid() && rows == map[]
    {
      rows := map[];
    }

    /** `storeHash`. */
    method Store(hash: Hash) returns (done: bool)
      requires Valid() && FitsBuffer(hash.hash) && FitsBuffer(hash.salt)
      modifies this
      ensures Valid() && done && rows == Apply(old(rows), StoreStep(hash))
    {
      var count := if hash.hash in rows then 1 else 0;
      if count > 0 {
        return true;
      }
      rows := rows[hash.hash := hash.salt];
      done := true;
    }

    /** `retrieveHash`. */
    method Retrieve(hashValue: CString) returns (result: Option<Hash>)
      requires Valid()
      ensures result == Stored(rows, hashValue)
      ensures result.Some? ==> FitsBuffer(result.value.hash) && FitsBuffer(result.value.salt)
    {
      if hashValue in rows {
        result := Some(Hash(hashValue, rows[hashValue]));
      } else {
        result := None;
      }
    }

    /** `deleteHash`: whether a row went. */
    method Delete(hashValue: CString) returns (deleted: bool)
      requires Valid()
      modifies this
      ensures Valid() && rows == Apply(old(rows), DeleteStep(hashValue))
      ensures deleted <==> hashValue in old(rows)
    {
      var changes := if hashValue in rows then 1 else 0;
      rows := rows - {hashValue};
      deleted := changes > 0;
    }
  }

  /** A record stays as long as its key is not deleted, whatever else happens to the table. */
  lemma {:induction false} StaysStored(rows: map<CString, CString>, steps: seq<Step>, key: CString)
    requires key in rows && forall i :: 0 <= i < |steps| ==> steps[i] != DeleteStep(key)
    ensures key in After(rows, steps) && After(rows, steps)[key] == rows[key]
  {
    if steps != [] {
      StaysStored(rows, steps[..|steps| - 1], key);
      assert steps[|steps| - 1] != DeleteStep(key);
    }
  }

  /** Step `i` stores the key, and no later step deletes it. */
  ghost predicate StoresLast(steps: seq<Step>, key: CString, i: nat)
    requires i < |steps|
  {
    steps[i].StoreStep? && steps[i].record.hash == key && DeleteStep(key) !in steps[i..]
  }

  lemma StoresLastLonger(steps: seq<Step>, last: Step, key: CString, i: nat)
    requires i < |steps| && last != DeleteStep(key)
    ensures StoresLast(steps + [last], key, i) <==> StoresLast(steps, key, i)
  {
    assert (steps + [last])[i..] == steps[i..] + [last];
  }

  /** A key is in the table exactly when it was stored after its last delete, or was there and never deleted. */
  lemma {:induction false} StoredIff(rows: map<CString, CString>, steps: seq<Step>, key: CString)
    ensures key in After(rows, steps) <==>
              || (key in rows && DeleteStep(key) !in steps)
              || exists i :: 0 <= i < |steps| && StoresLast(steps, key, i)
  {
    if steps != [] {
      var n, init, last := |steps| - 1, steps[..|steps| - 1], steps[|steps| - 1];
      assert steps == init + [last];
      StoredIff(rows, init, key);
      if last == DeleteStep(key) {
        assert forall i :: 0 <= i < |steps| ==> steps[i..][n - i] == last;
      } else {
        forall i | 0 <= i < n
          ensures StoresLast(steps, key, i) <==> StoresLast(init, key, i)
        {
          StoresLastLonger(init, last, key, i);
        }
        assert last.StoreStep? && last.record.hash == key ==> StoresLast(steps, key, n);
      }
    }
  }

  /** Step `i` stores the key when it is free, and no later step deletes it. */
  ghost predicate StoresFirst(rows: map<CString, CString>, steps: seq<Step>, record: Hash, i: nat)
    requires i < |steps|
  {
    && steps[i] == StoreStep(record) && record.hash !in After(rows, steps[..i])
    && DeleteStep(record.hash) !in steps[i + 1..]
  }

  /**
   * What a key is stored with: the salt of the first record stored under it since it was last free,
   * or the one it had at the start.
   */
  lemma {:induction false} StoredIs(rows: map<CString, CString>, steps: seq<Step>, record: Hash)
    ensures Stored(After(rows, steps), record.hash) == Some(record) <==>
              || (Stored(rows, record.hash) == Some(record) && DeleteStep(record.hash) !in steps)
              || exists i :: 0 <= i < |steps| && StoresFirst(rows, steps, record, i)
  {
    if steps != [] {
      var n, init, last := |steps| - 1, steps[..|steps| - 1], steps[|steps| - 1];
      assert steps == init + [last];
      StoredIs(rows, init, record);
      forall i | 0 <= i < n
        ensures StoresFirst(rows, steps, record, i) <==>
                  StoresFirst(rows, init, record, i) && last != DeleteStep(record.hash)
      {
        assert steps[..i] == init[..i] && steps[i + 1..] == init[i + 1..] + [last];
      }
      assert StoresFirst(rows, steps, record, n) <==> last == StoreStep(record) && record.hash !in After(rows, init);
    }
  }

  lemma {:induction false} FirstStep(rows: map<CString, CString>, first: Step, steps: seq<Step>)
    ensures After(rows, [first] + steps) == After(Apply(rows, first), steps)
  {
    var all := [first] + steps;
    if steps == [] {
      assert all[..|all| - 1] == [];
    } else {
      FirstStep(rows, first, steps[..|steps| - 1]);
      assert all[..|all| - 1] == [first] + steps[..|steps| - 1];
    }
  }

  /**
   * A record made with a fresh salt and stored under a key that was free is retrieved unchanged, and
   * accepts the text it was made from, after any steps that do not delete its key.
   */
  lemma StoredRecordAccepts(digest: seq<Byte> -> Md, text: CString, salt: CString, rows: map<CString, CString>,
          steps: seq<Step>, generated: CString)
    requires |salt| == SALT_LENGTH && |generated| == SALT_LENGTH
    requires var record := Sha3(digest, text, None, salt).record;
             record.hash !in rows && DeleteStep(record.hash) !in steps
    ensures var record := Sha3(digest, text, None, salt).record;
            && Stored(After(rows, [StoreStep(record)] + steps), record.hash) == Some(record)
            && Accepts(digest, text, record, generated) == Some(true)
  {
    var record := Sha3(digest, text, None, salt).record;
    FirstStep(rows, StoreStep(record), steps);
    StaysStored(Apply(rows, StoreStep(record)), steps, record.hash);
    FreshRecordAccepts(digest, text, salt, text, generated);
  }
}
