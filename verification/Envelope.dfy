/** Envelope encryption: a data key per record, wrapped under a versioned master key, and key
    rotation that rewraps the data key and never touches the record. Both layers use one AEAD
    (AES-256-GCM, sections 7.1 and 7.2 of NIST SP 800-38D), idealised here. */
module Envelope {
  import opened Common

  /** A Go string and a byte slice are both sequences of bytes. */
  type Bytes = string

  const NONCE_SIZE: nat := 12
  const DATA_KEY_LEN: nat := 32

  type Nonce = n: Bytes | |n| == NONCE_SIZE witness "............"
  type DataKey = k: Bytes | |k| == DATA_KEY_LEN witness "................................"

  /** The cipher, keyed by (key, nonce, text, additional data), and white-space trimming. */
  datatype Env = Env(
    seal: (Bytes, Bytes, Bytes, Bytes) -> Bytes,
    open: (Bytes, Bytes, Bytes, Bytes) -> Option<Bytes>,
    trim: string -> string)

  /** Opening inverts sealing, and nothing sealed opens under another key, nonce or additional
      data. */
  ghost predicate Ideal(env: Env) {
    && (forall k, n, p, a :: env.open(k, n, env.seal(k, n, p, a), a) == Some(p))
    && (forall k, n, p, a, k', n', a' ::
          env.open(k', n', env.seal(k, n, p, a), a').Some? ==> k' == k && n' == n && a' == a)
    && (forall s :: env.trim(env.trim(s)) == env.trim(s))
  }

  datatype Error =
    | NoKeys | EmptyKeyVersion | ActiveKeyMissing | UnusableKey | UnknownKeyVersion
    | InvalidDataKey | WrappedKeyTooShort | CiphertextTooShort | NotAuthentic | NoRandomness

  datatype Result<+T> = Ok(value: T) | Err(error: Error)

  datatype SealedRecord = SealedRecord(keyVersion: string, wrappedKey: Bytes, ciphertext: Bytes)

  datatype Cipher = Cipher(keys: map<string, Bytes>, active: string)

  ghost predicate ValidCipher(env: Env, c: Cipher) {
    && c.active in c.keys
    && forall v :: v in c.keys ==> v != "" && env.trim(v) == v
  }

  /** A configured key: its label as written, and the key if it decodes to a usable one. */
  datatype KeyEntry = KeyEntry(versionLabel: string, key: Option<Bytes>)

  ghost predicate Accepted(env: Env, active: string, entries: seq<KeyEntry>) {
    && entries != [] && env.trim(active) != ""
    && (forall e :: e in entries ==> env.trim(e.versionLabel) != "" && e.key.Some?)
    && exists e :: e in entries && env.trim(e.versionLabel) == env.trim(active)
  }

  /** Of the first n entries, the last whose label trims to this version has this key. */
  ghost predicate LastNamed(env: Env, entries: seq<KeyEntry>, n: nat, version: string, key: Bytes)
    requires n <= |entries|
  {
    exists i :: && 0 <= i < n && env.trim(entries[i].versionLabel) == version && entries[i].key == Some(key)
                && forall j :: i < j < n ==> env.trim(entries[j].versionLabel) != version
  }

  lemma OneMoreEntry(env: Env, entries: seq<KeyEntry>, n: nat, version: string, key: Bytes)
    requires n < |entries|
    requires if env.trim(entries[n].versionLabel) == version then entries[n].key == Some(key)
             else LastNamed(env, entries, n, version, key)
    ensures LastNamed(env, entries, n + 1, version, key)
  {}

  /** Builds a cipher exactly from a usable configuration. Every configured version can unwrap,
      and of two labels that trim alike the later wins. */
  method NewEnvelopeCipher(env: Env, active: string, entries: seq<KeyEntry>) returns (r: Result<Cipher>)
    requires Ideal(env)
    ensures r.Ok? <==> Accepted(env, active, entries)
    ensures r == Err(NoKeys) <==> entries == []
    ensures r == Err(ActiveKeyMissing) <==>
              && entries != [] && env.trim(active) != ""
              && (forall e :: e in entries ==> env.trim(e.versionLabel) != "" && e.key.Some?)
              && (forall e :: e in entries ==> env.trim(e.versionLabel) != env.trim(active))
    ensures r == Err(EmptyKeyVersion) ==>
              env.trim(active) == "" || exists e :: e in entries && env.trim(e.versionLabel) == ""
    ensures r == Err(UnusableKey) ==> exists e :: e in entries && e.key == None
    ensures r.Err? ==> r.error in {NoKeys, EmptyKeyVersion, UnusableKey, ActiveKeyMissing}
    ensures r.Ok? ==>
              && ValidCipher(env, r.value) && r.value.active == env.trim(active)
              && (forall e :: e in entries ==> env.trim(e.versionLabel) in r.value.keys)
              && (forall v :: v in r.value.keys ==> LastNamed(env, entries, |entries|, v, r.value.keys[v]))
  {
    hide LastNamed;
    var activeVersion := env.trim(active);
    if entries == [] {
      return Err(NoKeys);
    }
    if activeVersion == "" {
      return Err(EmptyKeyVersion);
    }
    var keys: map<string, Bytes> := map[];
    for n := 0 to |entries|
      invariant forall j :: 0 <= j < n ==> env.trim(entries[j].versionLabel) != "" && entries[j].key.Some?
      invariant forall j :: 0 <= j < n ==> env.trim(entries[j].versionLabel) in keys
      invariant forall v :: v in keys ==> v != "" && env.trim(v) == v
      invariant forall v :: v in keys ==> exists j :: 0 <= j < n && env.trim(entries[j].versionLabel) == v
      invariant forall v :: v in keys ==> LastNamed(env, entries, n, v, keys[v])
    {
      var version := env.trim(entries[n].versionLabel);
      if version == "" {
        return Err(EmptyKeyVersion);
      }
      if entries[n].key == None {
        return Err(UnusableKey);
      }
      ghost var before := keys;
      keys := keys[version := entries[n].key.value];
      forall v | v in keys
        ensures LastNamed(env, entries, n + 1, v, keys[v])
      {
        assert v != version ==> v in before;
        OneMoreEntry(env, entries, n, v, keys[v]);
      }
    }
    if activeVersion !in keys {
      return Err(ActiveKeyMissing);
    }
    r := Ok(Cipher(keys, activeVersion));
  }

  function Label(version: string): Bytes {
    "v1:" + version
  }

  function WrapDataKey(env: Env, c: Cipher, dataKey: Bytes, version: string, nonce: Option<Nonce>): Result<Bytes> {
    if |dataKey| != DATA_KEY_LEN then Err(InvalidDataKey)
    else if version !in c.keys then Err(UnknownKeyVersion)
    else if nonce == None then Err(NoRandomness)
    else Ok(nonce.value + env.seal(c.keys[version], nonce.value, dataKey, Label(version)))
  }

  function UnwrapDataKey(env: Env, c: Cipher, wrapped: Bytes, keyVersion: string): Result<Bytes> {
    var version := env.trim(keyVersion);
    if version == "" then Err(EmptyKeyVersion)
    else if version !in c.keys then Err(UnknownKeyVersion)
    else if |wrapped| < NONCE_SIZE then Err(WrappedKeyTooShort)
    else
      match env.open(c.keys[version], wrapped[..NONCE_SIZE], wrapped[NONCE_SIZE..], Label(version))
      case None => Err(NotAuthentic)
      case Some(dataKey) => if |dataKey| != DATA_KEY_LEN then Err(InvalidDataKey) else Ok(dataKey)
  }

  /** The random material of one Seal; a part is None if the generator failed there. */
  datatype Random = Random(dataKey: Option<DataKey>, recordNonce: Option<Nonce>, wrapNonce: Option<Nonce>)

  function Seal(env: Env, c: Cipher, plaintext: Bytes, aad: Bytes, rnd: Random): Result<SealedRecord> {
    if rnd.dataKey == None || rnd.recordNonce == None then Err(NoRandomness)
    else
      var nonce := rnd.recordNonce.value;
      var ciphertext := nonce + env.seal(rnd.dataKey.value, nonce, plaintext, aad);
      match WrapDataKey(env, c, rnd.dataKey.value, c.active, rnd.wrapNonce)
      case Err(e) => Err(e)
      case Ok(wrapped) => Ok(SealedRecord(c.active, wrapped, ciphertext))
  }

  function Open(env: Env, c: Cipher, rec: SealedRecord, aad: Bytes): Result<Bytes> {
    match UnwrapDataKey(env, c, rec.wrappedKey, rec.keyVersion)
    case Err(e) => Err(e)
    case Ok(dataKey) =>
      if |rec.ciphertext| < NONCE_SIZE then Err(CiphertextTooShort)
      else
        match env.open(dataKey, rec.ciphertext[..NONCE_SIZE], rec.ciphertext[NONCE_SIZE..], aad)
        case None => Err(NotAuthentic)
        case Some(plaintext) => Ok(plaintext)
  }

  function Rewrap(env: Env, c: Cipher, rec: SealedRecord, nonce: Option<Nonce>): Result<SealedRecord> {
    if env.trim(rec.keyVersion) == c.active then Ok(rec)
    else
      match UnwrapDataKey(env, c, rec.wrappedKey, rec.keyVersion)
      case Err(e) => Err(e)
      case Ok(dataKey) =>
        match WrapDataKey(env, c, dataKey, c.active, nonce)
        case Err(e) => Err(e)
        case Ok(wrapped) => Ok(SealedRecord(c.active, wrapped, rec.ciphertext))
  }

  // ---- Meaning ----

  /** What a record stands for: this plaintext, bound to this context, under this data key,
      wrapped by this master key for the version the record names. */
  datatype Meaning = Meaning(master: Bytes, dataKey: Bytes, plaintext: Bytes, aad: Bytes)

  ghost predicate Holds(env: Env, rec: SealedRecord, m: Meaning) {
    && env.trim(rec.keyVersion) != ""
    && |m.dataKey| == DATA_KEY_LEN
    && |rec.wrappedKey| >= NONCE_SIZE && |rec.ciphertext| >= NONCE_SIZE
    && rec.wrappedKey[NONCE_SIZE..] ==
         env.seal(m.master, rec.wrappedKey[..NONCE_SIZE], m.dataKey, "v1:" + env.trim(rec.keyVersion))
    && rec.ciphertext[NONCE_SIZE..] == env.seal(m.dataKey, rec.ciphertext[..NONCE_SIZE], m.plaintext, m.aad)
  }

  /** The cipher has the record's master key under the version the record names. */
  predicate HasKey(env: Env, c: Cipher, rec: SealedRecord, master: Bytes) {
    env.trim(rec.keyVersion) in c.keys && c.keys[env.trim(rec.keyVersion)] == master
  }

  lemma Prefixed(n: Bytes, body: Bytes)
    requires |n| == NONCE_SIZE
    ensures (n + body)[..NONCE_SIZE] == n && (n + body)[NONCE_SIZE..] == body
  {}

  lemma SealHolds(env: Env, c: Cipher, plaintext: Bytes, aad: Bytes, rnd: Random)
    requires Ideal(env) && ValidCipher(env, c) && Seal(env, c, plaintext, aad, rnd).Ok?
    ensures var rec := Seal(env, c, plaintext, aad, rnd).value;
            && Holds(env, rec, Meaning(c.keys[c.active], rnd.dataKey.value, plaintext, aad))
            && HasKey(env, c, rec, c.keys[c.active])
            && rec.ciphertext[..NONCE_SIZE] == rnd.recordNonce.value
            && rec.wrappedKey[..NONCE_SIZE] == rnd.wrapNonce.value
  {
    var k, n, wn := rnd.dataKey.value, rnd.recordNonce.value, rnd.wrapNonce.value;
    Prefixed(n, env.seal(k, n, plaintext, aad));
    Prefixed(wn, env.seal(c.keys[c.active], wn, k, Label(c.active)));
  }

  /** Seal succeeds exactly if the generator delivers all three parts, for every plaintext and
      context. */
  lemma SealSucceedsExactly(env: Env, c: Cipher, plaintext: Bytes, aad: Bytes, rnd: Random)
    requires ValidCipher(env, c)
    ensures var r := Seal(env, c, plaintext, aad, rnd);
            if rnd.dataKey.Some? && rnd.recordNonce.Some? && rnd.wrapNonce.Some?
            then r.Ok? && r.value.keyVersion == c.active else r == Err(NoRandomness)
  {}

  /** Unwrapping yields the data key exactly for a cipher that has the record's master key; one
      that has no key of that version says so, and one that has another is not believed. */
  lemma UnwrapsExactly(env: Env, c: Cipher, rec: SealedRecord, m: Meaning)
    requires Ideal(env) && Holds(env, rec, m)
    ensures var r := UnwrapDataKey(env, c, rec.wrappedKey, rec.keyVersion);
            r == if env.trim(rec.keyVersion) !in c.keys then Err(UnknownKeyVersion)
                 else if c.keys[env.trim(rec.keyVersion)] != m.master then Err(NotAuthentic)
                 else Ok(m.dataKey)
  {}

  /** The version is bound to the wrapped key: under any other version no cipher unwraps it, not
      even one that has the same key there. */
  lemma AlteredVersionFails(env: Env, c: Cipher, rec: SealedRecord, m: Meaning, version: string)
    requires Ideal(env) && Holds(env, rec, m) && env.trim(version) != env.trim(rec.keyVersion)
    ensures UnwrapDataKey(env, c, rec.wrappedKey, version).Err?
    ensures forall aad :: Open(env, c, rec.(keyVersion := version), aad).Err?
  {
    var a, b := Label(env.trim(version)), "v1:" + env.trim(rec.keyVersion);
    assert a[3..] == env.trim(version) && b[3..] == env.trim(rec.keyVersion);
  }

  /** The wrapped key and the ciphertext of different records are meaningless together. */
  lemma MixedRecordFails(
    env: Env, c: Cipher, one: SealedRecord, m: Meaning, other: SealedRecord, m': Meaning, aad: Bytes)
    requires Ideal(env) && Holds(env, one, m) && Holds(env, other, m') && m.dataKey != m'.dataKey
    ensures Open(env, c, one.(ciphertext := other.ciphertext), aad).Err?
  {
    UnwrapsExactly(env, c, one, m);
    hide UnwrapDataKey;
  }

  /** A record opens, and to its plaintext, exactly for a cipher that has its master key and in
      the context it was sealed for. */
  lemma OpensExactly(env: Env, c: Cipher, rec: SealedRecord, m: Meaning, aad: Bytes)
    requires Ideal(env) && Holds(env, rec, m)
    ensures var r := Open(env, c, rec, aad);
            r == if env.trim(rec.keyVersion) !in c.keys then Err(UnknownKeyVersion)
                 else if c.keys[env.trim(rec.keyVersion)] != m.master || aad != m.aad then Err(NotAuthentic)
                 else Ok(m.plaintext)
  {
    UnwrapsExactly(env, c, rec, m);
    hide UnwrapDataKey;
  }

  /** Rewrapping keeps the ciphertext and the meaning, up to the master key: it is the one the
      rewrapping cipher calls active, unless the record was on that version already. */
  lemma RewrapKeepsMeaning(env: Env, c: Cipher, rec: SealedRecord, nonce: Option<Nonce>, m: Meaning)
    requires Ideal(env) && ValidCipher(env, c) && Holds(env, rec, m) && Rewrap(env, c, rec, nonce).Ok?
    ensures var r := Rewrap(env, c, rec, nonce).value;
            && r.ciphertext == rec.ciphertext
            && env.trim(r.keyVersion) == c.active
            && Holds(env, r, m.(master := if r == rec then m.master else c.keys[c.active]))
            && (r != rec ==> nonce.Some? && r.wrappedKey[..NONCE_SIZE] == nonce.value)
  {
    UnwrapsExactly(env, c, rec, m);
    hide UnwrapDataKey;
    if env.trim(rec.keyVersion) != c.active {
      Prefixed(nonce.value, env.seal(c.keys[c.active], nonce.value, m.dataKey, Label(c.active)));
    }
  }

  /** Rewrap succeeds exactly if there is nothing to do, or the cipher has the record's master
      key and the generator delivers. */
  lemma RewrapSucceedsExactly(env: Env, c: Cipher, rec: SealedRecord, nonce: Option<Nonce>, m: Meaning)
    requires Ideal(env) && ValidCipher(env, c) && Holds(env, rec, m)
    ensures Rewrap(env, c, rec, nonce).Ok? <==>
            env.trim(rec.keyVersion) == c.active || (HasKey(env, c, rec, m.master) && nonce.Some?)
  {
    UnwrapsExactly(env, c, rec, m);
    hide UnwrapDataKey;
  }

  lemma RewrapIsIdempotent(env: Env, c: Cipher, rec: SealedRecord, nonce: Option<Nonce>, again: Option<Nonce>)
    requires Ideal(env) && ValidCipher(env, c) && Rewrap(env, c, rec, nonce).Ok?
    ensures Rewrap(env, c, Rewrap(env, c, rec, nonce).value, again) == Rewrap(env, c, rec, nonce)
  {}

  // ---- Rotation ----

  datatype RewrapAttempt = RewrapAttempt(cipher: Cipher, nonce: Option<Nonce>)

  /** A stored row after one attempt: a failed attempt leaves it as it was. */
  function Rotated(env: Env, rec: SealedRecord, a: RewrapAttempt): SealedRecord {
    match Rewrap(env, a.cipher, rec, a.nonce)
    case Ok(r) => r
    case Err(_) => rec
  }

  function RotatedAll(env: Env, rec: SealedRecord, attempts: seq<RewrapAttempt>): SealedRecord {
    if attempts == [] then rec
    else Rotated(env, RotatedAll(env, rec, attempts[..|attempts| - 1]), attempts[|attempts| - 1])
  }

  /** The master key that wraps the row after these attempts. */
  function MasterAfter(env: Env, rec: SealedRecord, master: Bytes, attempts: seq<RewrapAttempt>): Bytes {
    if attempts == [] then master
    else
      var init, last := attempts[..|attempts| - 1], attempts[|attempts| - 1];
      var before := RotatedAll(env, rec, init);
      if Rotated(env, before, last) != before && last.cipher.active in last.cipher.keys
      then last.cipher.keys[last.cipher.active]
      else MasterAfter(env, rec, master, init)
  }

  /** Whatever ciphers a row is rewrapped through, with whatever keys, repeats and failures, its
      ciphertext never changes and it keeps its plaintext and context. */
  lemma {:induction false} RotationKeepsMeaning(env: Env, rec: SealedRecord, m: Meaning, attempts: seq<RewrapAttempt>)
    requires Ideal(env) && Holds(env, rec, m)
    requires forall i :: 0 <= i < |attempts| ==> ValidCipher(env, attempts[i].cipher)
    ensures var r := RotatedAll(env, rec, attempts);
            && r.ciphertext == rec.ciphertext
            && Holds(env, r, m.(master := MasterAfter(env, rec, m.master, attempts)))
  {
    if attempts != [] {
      var init, last := attempts[..|attempts| - 1], attempts[|attempts| - 1];
      RotationKeepsMeaning(env, rec, m, init);
      hide Holds;
      hide Ideal;
      var before := RotatedAll(env, rec, init);
      if Rewrap(env, last.cipher, before, last.nonce).Ok? {
        RewrapKeepsMeaning(env, last.cipher, before, last.nonce, m.(master := MasterAfter(env, rec, m.master, init)));
        hide Rewrap;
      }
    }
  }

  /** Once a row was rewrapped by a cipher that could unwrap it, that cipher's active key is all
      a reader needs: every key the row was under before can be retired. */
  lemma OldKeysCanRetire(env: Env, rec: SealedRecord, m: Meaning, attempts: seq<RewrapAttempt>, reader: Cipher)
    requires Ideal(env) && Holds(env, rec, m) && attempts != []
    requires forall i :: 0 <= i < |attempts| ==> ValidCipher(env, attempts[i].cipher)
    requires var earlier, last := attempts[..|attempts| - 1], attempts[|attempts| - 1];
             && last.nonce.Some?
             && HasKey(env, last.cipher, RotatedAll(env, rec, earlier), MasterAfter(env, rec, m.master, earlier))
             && last.cipher.active in reader.keys && ValidCipher(env, last.cipher)
             && reader.keys[last.cipher.active] == last.cipher.keys[last.cipher.active]
    ensures var r := RotatedAll(env, rec, attempts);
            && env.trim(r.keyVersion) == attempts[|attempts| - 1].cipher.active
            && Open(env, reader, r, m.aad) == Ok(m.plaintext)
  {
    var earlier, last := attempts[..|attempts| - 1], attempts[|attempts| - 1];
    var before, master := RotatedAll(env, rec, earlier), MasterAfter(env, rec, m.master, earlier);
    RotationKeepsMeaning(env, rec, m, earlier);
    RewrapSucceedsExactly(env, last.cipher, before, last.nonce, m.(master := master));
    RewrapKeepsMeaning(env, last.cipher, before, last.nonce, m.(master := master));
    var r := RotatedAll(env, rec, attempts);
    OpensExactly(env, reader, r, m.(master := if r == before then master else last.cipher.keys[last.cipher.active]), m.aad);
    hide Open;
    hide Holds;
    hide Ideal;
  }

  /** A row sealed once opens to the sealed plaintext after any rotation, for exactly the ciphers
      that have the master key it was last rewrapped under, in exactly the sealed context. */
  lemma SealedRowsSurviveRotation(
    env: Env, c: Cipher, plaintext: Bytes, aad: Bytes, rnd: Random, attempts: seq<RewrapAttempt>,
    reader: Cipher, readAad: Bytes)
    requires Ideal(env) && ValidCipher(env, c) && Seal(env, c, plaintext, aad, rnd).Ok?
    requires forall i :: 0 <= i < |attempts| ==> ValidCipher(env, attempts[i].cipher)
    ensures var rec := Seal(env, c, plaintext, aad, rnd).value;
            var r := RotatedAll(env, rec, attempts);
            var result := Open(env, reader, r, readAad);
            if HasKey(env, reader, r, MasterAfter(env, rec, c.keys[c.active], attempts)) && readAad == aad
            then result == Ok(plaintext) else result.Err?
  {
    SealHolds(env, c, plaintext, aad, rnd);
    var rec := Seal(env, c, plaintext, aad, rnd).value;
    var m := Meaning(c.keys[c.active], rnd.dataKey.value, plaintext, aad);
    RotationKeepsMeaning(env, rec, m, attempts);
    var master := MasterAfter(env, rec, m.master, attempts);
    OpensExactly(env, reader, RotatedAll(env, rec, attempts), m.(master := master), readAad);
    hide Open;
    hide Holds;
    hide Seal;
  }
}
