/** The per-share keyring, its file, and the framing of encrypted blobs (src/crypto.rs). */
module KeyRing {
  import opened Results

  type Byte = b: int | 0 <= b < 256

  const KEY_LEN := 32
  const NONCE_LEN := 24
  const TAG_LEN := 16
  const EPOCH_LEN := 8
  const HEADER_LEN := EPOCH_LEN + NONCE_LEN

  type Key = k: seq<Byte> | |k| == KEY_LEN witness seq(KEY_LEN, _ => 0)

  /** One key per epoch; epochs count from 1 and the last key is current. */
  type Ring = seq<Key>

  function KeyForEpoch(ring: Ring, epoch: nat): Option<Key> {
    if 1 <= epoch <= |ring| then Some(ring[epoch - 1]) else None
  }

  // ---- keys.bin ----

  function Flatten(ring: Ring): seq<Byte> {
    if ring == [] then [] else ring[0] + Flatten(ring[1..])
  }

  function Chunks(raw: seq<Byte>): Ring
    requires |raw| % KEY_LEN == 0
  {
    if raw == [] then [] else [raw[..KEY_LEN]] + Chunks(raw[KEY_LEN..])
  }

  datatype KeyError = InvalidLength | AlreadyExists | EmptyKeyring | EpochConflict

  function ParseKeys(raw: seq<Byte>): Result<Ring, KeyError> {
    if raw == [] || |raw| % KEY_LEN != 0 then Err(InvalidLength) else Ok(Chunks(raw))
  }

  lemma {:induction false} ChunksOfFlatten(ring: Ring)
    ensures |Flatten(ring)| == KEY_LEN * |ring|
    ensures Chunks(Flatten(ring)) == ring
  {
    if ring != [] {
      ChunksOfFlatten(ring[1..]);
      var raw := Flatten(ring);
      assert raw[..KEY_LEN] == ring[0] && raw[KEY_LEN..] == Flatten(ring[1..]);
    }
  }

  lemma {:induction false} FlattenOfChunks(raw: seq<Byte>)
    requires |raw| % KEY_LEN == 0
    ensures Flatten(Chunks(raw)) == raw && KEY_LEN * |Chunks(raw)| == |raw|
  {
    if raw != [] {
      FlattenOfChunks(raw[KEY_LEN..]);
      assert raw == raw[..KEY_LEN] + raw[KEY_LEN..];
    }
  }

  /** `keys.bin` is accepted exactly when its length is a positive multiple of the key length, and
      saving and loading are inverse both ways. */
  lemma KeysFileRoundTrip(ring: Ring, raw: seq<Byte>)
    ensures ParseKeys(Flatten(ring)) == if ring == [] then Err(InvalidLength) else Ok(ring)
    ensures ParseKeys(raw).Ok? <==> |raw| > 0 && |raw| % 32 == 0
    ensures ParseKeys(raw).Ok? ==> ParseKeys(raw).value != [] && Flatten(ParseKeys(raw).value) == raw
  {
    ChunksOfFlatten(ring);
    if |raw| % KEY_LEN == 0 {
      FlattenOfChunks(raw);
    }
  }

  // ---- Installing a received key ----

  datatype InstallOutcome = Installed | Idempotent | Stale | Gap(have: nat, got: nat)

  function Install(ring: Ring, epoch: nat, key: Key): (r: (Ring, Result<InstallOutcome, KeyError>))
    requires ring != []
    ensures r.0 == if r.1 == Ok(Installed) then ring + [key] else ring
  {
    var current := |ring|;
    if epoch == current then
      (ring, if KeyForEpoch(ring, epoch) == Some(key) then Ok(Idempotent) else Err(EpochConflict))
    else if epoch < current then (ring, Ok(Stale))
    else if epoch > current + 1 then (ring, Ok(Gap(current, epoch)))
    else (ring + [key], Ok(Installed))
  }

  /** What installing must lead to. Only the next epoch changes the ring; the current epoch is accepted
      again with the key it has, and is a conflict with any other. */
  ghost predicate Installs(ring: Ring, epoch: nat, key: Key, next: Ring, r: Result<InstallOutcome, KeyError>) {
    && (r == Ok(Installed) <==> epoch == |ring| + 1)
    && (r == Ok(Idempotent) <==> 1 <= epoch == |ring| && ring[epoch - 1] == key)
    && (r == Err(EpochConflict) <==> 1 <= epoch == |ring| && ring[epoch - 1] != key)
    && (r == Ok(Stale) <==> epoch < |ring|)
    && (r.Ok? && r.value.Gap? <==> epoch > |ring| + 1)
    && (r.Ok? && r.value.Gap? ==> r.value == Gap(|ring|, epoch))
    && next == if epoch == |ring| + 1 then ring + [key] else ring
  }

  lemma InstallDecides(ring: Ring, epoch: nat, key: Key)
    requires ring != []
    ensures Installs(ring, epoch, key, Install(ring, epoch, key).0, Install(ring, epoch, key).1)
  {
  }

  /** The key store of one share: the bytes of `keys.bin`, and the ring shared with the sync loop. */
  class KeyStore {
    var file: Option<seq<Byte>>
    var ring: Ring

    constructor ()
      ensures file == None && ring == []
    {
      file, ring := None, [];
    }

    method Save(keys: Ring)
      modifies this`file
      ensures file == Some(Flatten(keys))
    {
      var bytes: seq<Byte> := [];
      var i := 0;
      while i < |keys|
        invariant 0 <= i <= |keys|
        invariant bytes + Flatten(keys[i..]) == Flatten(keys)
      {
        assert keys[i..][1..] == keys[i + 1..];
        bytes := bytes + keys[i];
        i := i + 1;
      }
      assert keys[i..] == [] && bytes + [] == bytes;
      file := Some(bytes);
    }

    method LoadOrCreate(random: Key) returns (r: Result<Ring, KeyError>)
      modifies this`file
      ensures old(file).Some? ==> r == ParseKeys(old(file).value) && file == old(file)
      ensures old(file).None? ==> r == Ok([random]) && file == Some(Flatten([random]))
      ensures r.Ok? ==> r.value != [] && file == Some(Flatten(r.value))
    {
      if file.None? {
        Save([random]);
        return Ok([random]);
      }
      var raw := file.value;
      if raw == [] || |raw| % KEY_LEN != 0 {
        return Err(InvalidLength);
      }
      var keys: Ring := [];
      var rest := raw;
      while rest != []
        invariant |rest| % KEY_LEN == 0
        invariant keys + Chunks(rest) == Chunks(raw)
        decreases |rest|
      {
        keys := keys + [rest[..KEY_LEN]];
        rest := rest[KEY_LEN..];
      }
      assert keys + [] == keys;
      FlattenOfChunks(raw);
      return Ok(keys);
    }

    method InstallKeyring(keys: Ring) returns (r: Result<(), KeyError>)
      modifies this`file
      ensures old(file).Some? ==> r == Err(AlreadyExists) && file == old(file)
      ensures old(file).None? && keys == [] ==> r == Err(EmptyKeyring) && file == old(file)
      ensures old(file).None? && keys != [] ==> r.Ok? && file == Some(Flatten(keys))
    {
      if file.Some? {
        return Err(AlreadyExists);
      }
      if keys == [] {
        return Err(EmptyKeyring);
      }
      Save(keys);
      return Ok(());
    }

    /** Append a random key, and refresh the shared ring from the file. */
    method Rotate(random: Key, other: Key) returns (r: Result<nat, KeyError>)
      requires file == Some(Flatten(ring)) && ring != []
      modifies this
      ensures r == Ok(|ring|) && ring == old(ring) + [random]
      ensures file == Some(Flatten(ring))
    {
      ChunksOfFlatten(ring);
      var loaded := LoadOrCreate(other);
      Save(loaded.value + [random]);
      ChunksOfFlatten(loaded.value + [random]);
      var again := LoadOrCreate(other);
      ring := again.value;
      return Ok(|ring|);
    }

    method InstallEpochKey(epoch: nat, key: Key, other: Key) returns (r: Result<InstallOutcome, KeyError>)
      requires file == Some(Flatten(ring)) && ring != []
      modifies this
      ensures (ring, r) == Install(old(ring), epoch, key)
      ensures Installs(old(ring), epoch, key, ring, r)
      ensures file == Some(Flatten(ring)) && ring != []
    {
      ChunksOfFlatten(ring);
      var loaded := LoadOrCreate(other);
      var keys := loaded.value;
      var current := |keys|;
      if epoch == current {
        if keys[epoch - 1] == key {
          return Ok(Idempotent);
        }
        return Err(EpochConflict);
      }
      if epoch < current {
        return Ok(Stale);
      }
      if epoch > current + 1 {
        return Ok(Gap(current, epoch));
      }
      Save(keys + [key]);
      ring := keys + [key];
      return Ok(Installed);
    }
  }

  // ---- Encrypted blobs ----

  function Pow256(k: nat): nat {
    if k == 0 then 1 else 256 * Pow256(k - 1)
  }

  /** The `k` lowest bytes of `n`, least significant first. */
  function LittleEndian(n: nat, k: nat): (bytes: seq<Byte>)
    ensures |bytes| == k
  {
    if k == 0 then [] else [n % 256] + LittleEndian(n / 256, k - 1)
  }

  function FromLittleEndian(bytes: seq<Byte>): nat {
    if bytes == [] then 0 else bytes[0] + 256 * FromLittleEndian(bytes[1..])
  }

  lemma {:induction false} LittleEndianRoundTrip(n: nat, k: nat)
    requires n < Pow256(k)
    ensures FromLittleEndian(LittleEndian(n, k)) == n
  {
    if k > 0 {
      LittleEndianRoundTrip(n / 256, k - 1);
      assert LittleEndian(n, k)[1..] == LittleEndian(n / 256, k - 1);
    }
  }

  lemma {:induction false} FromLittleEndianRoundTrip(bytes: seq<Byte>)
    ensures FromLittleEndian(bytes) < Pow256(|bytes|)
    ensures LittleEndian(FromLittleEndian(bytes), |bytes|) == bytes
  {
    if bytes != [] {
      FromLittleEndianRoundTrip(bytes[1..]);
      assert bytes == [bytes[0]] + bytes[1..];
    }
  }

  /** Later bytes weigh more: what follows `k` bytes counts 256 to the power of `k` times. */
  lemma {:induction false} LaterBytesWeighMore(a: seq<Byte>, b: seq<Byte>)
    ensures FromLittleEndian(a + b) == FromLittleEndian(a) + Pow256(|a|) * FromLittleEndian(b)
  {
    if a == [] {
      assert a + b == b;
    } else {
      LaterBytesWeighMore(a[1..], b);
      assert (a + b)[1..] == a[1..] + b;
      Regroup(Pow256(|a| - 1), FromLittleEndian(b));
    }
  }

  lemma Regroup(x: nat, y: nat)
    ensures 256 * (x * y) == (256 * x) * y
  {
  }

  /** An authenticated cipher under a nonce. */
  datatype Cipher = Cipher(
    seal: (Key, seq<Byte>, seq<Byte>) -> seq<Byte>,
    open: (Key, seq<Byte>, seq<Byte>) -> Option<seq<Byte>>)

  ghost predicate Inverse(c: Cipher) {
    && (forall k, n, p :: c.open(k, n, c.seal(k, n, p)) == Some(p))
    && (forall k, n, p :: |c.seal(k, n, p)| == |p| + TAG_LEN)
  }

  datatype BlobError = TooShort | NoKey(epoch: nat) | NotAuthentic

  function Encrypt(c: Cipher, ring: Ring, nonce: seq<Byte>, plaintext: seq<Byte>): seq<Byte>
    requires ring != [] && |nonce| == NONCE_LEN
  {
    LittleEndian(|ring|, EPOCH_LEN) + nonce + c.seal(ring[|ring| - 1], nonce, plaintext)
  }

  function Decrypt(c: Cipher, ring: Ring, blob: seq<Byte>): Result<seq<Byte>, BlobError> {
    if |blob| < HEADER_LEN + TAG_LEN then Err(TooShort)
    else
      var epoch := FromLittleEndian(blob[..EPOCH_LEN]);
      match KeyForEpoch(ring, epoch)
      case None => Err(NoKey(epoch))
      case Some(key) =>
        match c.open(key, blob[EPOCH_LEN..HEADER_LEN], blob[HEADER_LEN..])
        case None => Err(NotAuthentic)
        case Some(p) => Ok(p)
  }

  /** A blob opens to its plaintext under any ring that extends the writer's, and under any ring
      that agrees with it at the writing epoch; a ring that stops short of that epoch says so. */
  lemma DecryptInvertsEncrypt(c: Cipher, writer: Ring, reader: Ring, nonce: seq<Byte>, plaintext: seq<Byte>)
    requires Inverse(c) && writer != [] && |writer| < Pow256(EPOCH_LEN) && |nonce| == NONCE_LEN
    ensures var blob := Encrypt(c, writer, nonce, plaintext);
      && (writer <= reader ==> Decrypt(c, reader, blob) == Ok(plaintext))
      && (KeyForEpoch(reader, |writer|) == Some(writer[|writer| - 1]) ==> Decrypt(c, reader, blob) == Ok(plaintext))
      && (|reader| < |writer| ==> Decrypt(c, reader, blob) == Err(NoKey(|writer|)))
  {
    var epoch := LittleEndian(|writer|, EPOCH_LEN);
    var sealed := c.seal(writer[|writer| - 1], nonce, plaintext);
    var blob := Encrypt(c, writer, nonce, plaintext);
    LittleEndianRoundTrip(|writer|, EPOCH_LEN);
    assert blob[..EPOCH_LEN] == epoch && blob[EPOCH_LEN..HEADER_LEN] == nonce && blob[HEADER_LEN..] == sealed;
  }

  /** What opening any blob must lead to. An epoch without a key is named, and so is a payload that the
      key of its epoch does not authenticate. */
  lemma DecryptDecides(c: Cipher, ring: Ring, blob: seq<Byte>)
    ensures Decrypt(c, ring, blob) == Err(TooShort) <==> |blob| < 48
    ensures |blob| >= 48 ==>
      exists e: nat :: LittleEndian(e, 8) == blob[..8] && e < Pow256(8) &&
        Decrypt(c, ring, blob) ==
          if e == 0 || e > |ring| then Err(NoKey(e))
          else
            var p := c.open(ring[e - 1], blob[8..32], blob[32..]);
            if p == None then Err(NotAuthentic) else Ok(p.value)
  {
    if |blob| >= 48 {
      var e := FromLittleEndian(blob[..EPOCH_LEN]);
      FromLittleEndianRoundTrip(blob[..EPOCH_LEN]);
      assert LittleEndian(e, EPOCH_LEN) == blob[..EPOCH_LEN];
    }
  }
}
