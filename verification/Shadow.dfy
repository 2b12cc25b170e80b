/** The encrypted shadow of a share folder (src/daemon.rs): path mapping, encryption into the
    shadow, and decryption back into the folder. */
module Shadow {
  import opened Results
  import opened KeyRing
  import opened Snapshot

  const BIN := ".bin"
  const TMP := ".peerdup-tmp"

  predicate EndsWith(s: string, suffix: string) {
    |suffix| <= |s| && s[|s| - |suffix|..] == suffix
  }

  /** The ciphertext path of a plaintext path: the leaf name gets a suffix. */
  function BinPath(p: Path): Path
    requires p != []
  {
    p[|p| - 1 := p[|p| - 1] + BIN]
  }

  /** The plaintext path of a ciphertext path, if its leaf has the suffix. */
  function PlainPath(s: Path): Option<Path> {
    if s == [] || !EndsWith(s[|s| - 1], BIN) then None
    else Some(s[|s| - 1 := s[|s| - 1][..|s[|s| - 1]| - |BIN|]])
  }

  lemma SuffixIff(s: string, suffix: string)
    ensures EndsWith(s, suffix) <==> exists leaf: string :: s == leaf + suffix
  {
    if EndsWith(s, suffix) {
      assert s == s[..|s| - |suffix|] + suffix;
    }
  }

  lemma PathMappingIsInverse(p: Path, s: Path)
    requires p != []
    ensures BinPath(p) == p[..|p| - 1] + [p[|p| - 1] + ".bin"]
    ensures PlainPath(BinPath(p)) == Some(p)
    ensures PlainPath(s) == Some(p) <==> s == BinPath(p)
    ensures PlainPath(s) == None <==> s == [] || forall leaf: string :: s[|s| - 1] != leaf + ".bin"
  {
    var leaf := p[|p| - 1];
    assert (leaf + BIN)[..|leaf|] == leaf && (leaf + BIN)[|leaf|..] == BIN;
    assert BinPath(p)[|p| - 1 := leaf] == p;
    if PlainPath(s) == Some(p) {
      var last := s[|s| - 1];
      assert last == last[..|last| - |BIN|] + BIN;
      assert s == BinPath(p);
    }
    if s != [] {
      SuffixIff(s[|s| - 1], BIN);
    }
  }

  lemma BinPathIsVisible(p: Path)
    requires Visible(p)
    ensures Visible(BinPath(p))
  {
    var leaf := p[|p| - 1];
    var s := BinPath(p);
    forall i | 0 <= i < |s| ensures s[i] != PEERDUP_DIR_NAME {
      if i < |p| - 1 {
        assert s[i] == p[i] && p[i] in p;
      } else {
        assert s[i][|leaf|..] == BIN;
        assert PEERDUP_DIR_NAME[|PEERDUP_DIR_NAME| - 1] != BIN[|BIN| - 1];
        assert (leaf + BIN)[|leaf| + 3] == BIN[3];
      }
    }
  }

  /** The plaintext paths that a walk of the shadow yields. */
  function Shadowed(shadow: Tree): set<Path> {
    set s | s in shadow && Visible(s) && PlainPath(s).Some? :: PlainPath(s).value
  }

  lemma ShadowedIff(shadow: Tree, p: Path)
    requires p != []
    ensures p in Shadowed(shadow) <==> BinPath(p) in shadow && Visible(BinPath(p))
  {
    PathMappingIsInverse(p, BinPath(p));
    if p in Shadowed(shadow) {
      var s :| s in shadow && Visible(s) && PlainPath(s) == Some(p);
      PathMappingIsInverse(p, s);
    }
  }

  type Nonce = n: seq<Byte> | |n| == NONCE_LEN witness seq(NONCE_LEN, _ => 0)

  function Sealed(c: Cipher, ring: Ring, nonces: Path -> Nonce, p: Path, bytes: Bytes): Bytes
    requires ring != []
  {
    Encrypt(c, ring, nonces(p), bytes)
  }

  /** The shadow after `sync_plaintext_to_shadow`: every manifest file freshly encrypted, every other
      ciphertext file removed, files without the suffix left alone. */
  ghost predicate Mirrors(c: Cipher, ring: Ring, nonces: Path -> Nonce, plain: Tree, manifest: set<Path>, before: Tree, after: Tree)
    requires ring != []
  {
    && (forall p :: p in manifest && p in plain && p != [] ==>
          BinPath(p) in after && after[BinPath(p)] == Sealed(c, ring, nonces, p, plain[p]))
    && (forall s :: s in after && Visible(s) && PlainPath(s).Some? ==> PlainPath(s).value in manifest)
    && (forall s :: !Visible(s) || PlainPath(s) == None ==> (s in after <==> s in before) && (s in after ==> after[s] == before[s]))
  }

  /** A blob for the current members only: it opens to its bytes for whoever has the writer's ring, and
      is refused for want of a key to whoever stops short of its last epoch. */
  ghost predicate SealedBlob(c: Cipher, ring: Ring, nonce: Nonce, bytes: Bytes, blob: Bytes) {
    && |blob| >= 32 && blob[8..32] == nonce
    && (forall reader: Ring :: ring <= reader ==> Decrypt(c, reader, blob) == Ok(bytes))
    && (forall reader: Ring :: |reader| < |ring| ==> Decrypt(c, reader, blob) == Err(NoKey(|ring|)))
  }

  /** Every file of the manifest is in the shadow, under its own nonce and for the current members only. */
  ghost predicate SealedForCurrent(c: Cipher, ring: Ring, nonces: Path -> Nonce, plain: Tree, manifest: set<Path>, shadow: Tree) {
    forall p :: p in manifest && p in plain && p != [] ==>
      BinPath(p) in shadow && SealedBlob(c, ring, nonces(p), plain[p], shadow[BinPath(p)])
  }

  lemma EncryptedIsSealed(c: Cipher, ring: Ring, nonce: Nonce, bytes: Bytes)
    requires Inverse(c) && ring != [] && |ring| < Pow256(EPOCH_LEN)
    ensures SealedBlob(c, ring, nonce, bytes, Encrypt(c, ring, nonce, bytes))
  {
    forall reader: Ring
      ensures ring <= reader ==> Decrypt(c, reader, Encrypt(c, ring, nonce, bytes)) == Ok(bytes)
      ensures |reader| < |ring| ==> Decrypt(c, reader, Encrypt(c, ring, nonce, bytes)) == Err(NoKey(|ring|))
    {
      DecryptInvertsEncrypt(c, ring, reader, nonce, bytes);
    }
  }

  lemma MirrorIsSealed(c: Cipher, ring: Ring, nonces: Path -> Nonce, plain: Tree, manifest: set<Path>, before: Tree, after: Tree)
    requires Inverse(c) && ring != [] && |ring| < Pow256(EPOCH_LEN)
    requires Mirrors(c, ring, nonces, plain, manifest, before, after)
    ensures SealedForCurrent(c, ring, nonces, plain, manifest, after)
  {
    forall p | p in manifest && p in plain && p != []
      ensures SealedBlob(c, ring, nonces(p), plain[p], after[BinPath(p)])
    {
      EncryptedIsSealed(c, ring, nonces(p), plain[p]);
    }
  }

  /** Encrypts the files of the manifest, each over what the shadow had under its name. */
  method SealFiles(c: Cipher, ring: Ring, nonces: Path -> Nonce, plain: Tree, shadow: Tree, manifest: set<Path>)
    returns (after: Tree)
    requires ring != [] && manifest <= Collected(plain)
    ensures forall p :: p in manifest ==>
      BinPath(p) in after && after[BinPath(p)] == Sealed(c, ring, nonces, p, plain[p])
    ensures forall s :: s in shadow ==> s in after
    ensures forall s :: s in after && (s !in shadow || after[s] != shadow[s]) ==>
      Visible(s) && PlainPath(s).Some? && PlainPath(s).value in manifest
  {
    after := shadow;
    var todo := manifest;
    while todo != {}
      invariant todo <= manifest
      invariant forall p :: p in manifest - todo ==>
        BinPath(p) in after && after[BinPath(p)] == Sealed(c, ring, nonces, p, plain[p])
      invariant forall s :: s in shadow ==> s in after
      invariant forall s :: s in after && (s !in shadow || after[s] != shadow[s]) ==>
        Visible(s) && PlainPath(s).Some? && PlainPath(s).value in manifest
      decreases todo
    {
      var rel :| rel in todo;
      PathMappingIsInverse(rel, BinPath(rel));
      BinPathIsVisible(rel);
      after := after[BinPath(rel) := Sealed(c, ring, nonces, rel, plain[rel])];
      forall p | p in manifest && p != rel ensures BinPath(p) != BinPath(rel) {
        PathMappingIsInverse(p, BinPath(rel));
      }
      todo := todo - {rel};
    }
  }

  method SyncPlaintextToShadow(c: Cipher, ring: Ring, nonces: Path -> Nonce, plain: Tree, shadow: Tree, manifest: set<Path>)
    returns (after: Tree)
    requires ring != [] && manifest <= Collected(plain)
    ensures Mirrors(c, ring, nonces, plain, manifest, shadow, after)
    ensures Inverse(c) && |ring| < Pow256(EPOCH_LEN) ==> SealedForCurrent(c, ring, nonces, plain, manifest, after)
  {
    after := SealFiles(c, ring, nonces, plain, shadow, manifest);
    after := RemoveOrphans(after, manifest);
    forall p | p in manifest ensures PlainPath(BinPath(p)) == Some(p) {
      PathMappingIsInverse(p, BinPath(p));
    }
    if Inverse(c) && |ring| < Pow256(EPOCH_LEN) {
      MirrorIsSealed(c, ring, nonces, plain, manifest, shadow, after);
    }
  }

  predicate Orphan(manifest: set<Path>, s: Path) {
    Visible(s) && PlainPath(s).Some? && PlainPath(s).value !in manifest
  }

  method RemoveOrphans(shadow: Tree, manifest: set<Path>) returns (after: Tree)
    ensures after == map s | s in shadow && !Orphan(manifest, s) :: shadow[s]
  {
    after := shadow;
    var todo := shadow.Keys;
    while todo != {}
      invariant todo <= shadow.Keys
      invariant after == map s | s in shadow && (s in todo || !Orphan(manifest, s)) :: shadow[s]
      decreases todo
    {
      var s :| s in todo;
      if Orphan(manifest, s) {
        after := after - {s};
      }
      todo := todo - {s};
    }
  }

  // ---- Back to plaintext ----

  function TmpPath(p: Path): Path
    requires p != []
  {
    p[|p| - 1 := p[|p| - 1] + TMP]
  }

  /** No file of the share is named like the temporary of another. */
  ghost predicate NoTemporaries(paths: set<Path>) {
    forall p, q :: p in paths && q in paths && q != [] ==> p != TmpPath(q)
  }

  function Opened(c: Cipher, ring: Ring, shadow: Tree, p: Path): Result<Bytes, BlobError>
    requires p in Shadowed(shadow) && p != []
  {
    ShadowedIff(shadow, p);
    Decrypt(c, ring, shadow[BinPath(p)])
  }

  predicate AllOpen(c: Cipher, ring: Ring, shadow: Tree) {
    forall p | p in Shadowed(shadow) :: p != [] ==> Opened(c, ring, shadow, p).Ok?
  }

  lemma ShadowedNotEmpty(shadow: Tree, p: Path)
    requires p in Shadowed(shadow)
    ensures p != []
  {
  }

  /** The folder after the files `done` have been decrypted into it: their temporaries are gone and
      their plaintext is in place. */
  ghost predicate Restored(c: Cipher, ring: Ring, shadow: Tree, before: Tree, done: set<Path>, after: Tree) {
    && done <= Shadowed(shadow)
    && (forall p :: p in done && p != [] ==> p in after && Opened(c, ring, shadow, p) == Ok(after[p]))
    && (forall p :: p !in done ==>
          if exists q :: q in done && q != [] && p == TmpPath(q) then p !in after
          else (p in after <==> p in before) && (p in after ==> after[p] == before[p]))
  }

  lemma RestoreOneMore(c: Cipher, ring: Ring, shadow: Tree, before: Tree, done: set<Path>, after: Tree, p: Path)
    requires Restored(c, ring, shadow, before, done, after) && NoTemporaries(Shadowed(shadow))
    requires p in Shadowed(shadow) && p != [] && Opened(c, ring, shadow, p).Ok?
    ensures Restored(c, ring, shadow, before, done + {p}, (after - {TmpPath(p)})[p := Opened(c, ring, shadow, p).value])
  {
    var next := (after - {TmpPath(p)})[p := Opened(c, ring, shadow, p).value];
    forall q | q !in done + {p}
      ensures if exists r :: r in done + {p} && r != [] && q == TmpPath(r) then q !in next
              else (q in next <==> q in before) && (q in next ==> next[q] == before[q])
    {
      if r :| r in done && r != [] && q == TmpPath(r) {
        assert q !in after;
      } else if q == TmpPath(p) {
        assert q !in next;
      }
    }
  }

  /** The position of the first file of a walk that does not open, or the length. */
  function FirstClosed(c: Cipher, ring: Ring, shadow: Tree, order: seq<Path>): (i: nat)
    requires forall p :: p in order ==> p in Shadowed(shadow)
    ensures i <= |order|
    ensures forall j :: 0 <= j < i ==> order[j] in Shadowed(shadow) && (order[j] != [] ==> Opened(c, ring, shadow, order[j]).Ok?)
    ensures i < |order| ==> order[i] in Shadowed(shadow) && order[i] != [] && Opened(c, ring, shadow, order[i]).Err?
  {
    if order == [] then 0
    else
      assert order[0] in Shadowed(shadow);
      ShadowedNotEmpty(shadow, order[0]);
      if Opened(c, ring, shadow, order[0]).Err? then 0
      else
        var i := FirstClosed(c, ring, shadow, order[1..]);
        i + 1
  }

  function Firsts(order: seq<Path>, i: nat): set<Path>
    requires i <= |order|
  {
    set p | p in order[..i]
  }

  lemma AllOpenIff(c: Cipher, ring: Ring, shadow: Tree, order: seq<Path>)
    requires forall p :: p in order <==> p in Shadowed(shadow)
    ensures FirstClosed(c, ring, shadow, order) == |order| <==> AllOpen(c, ring, shadow)
    ensures Firsts(order, |order|) == Shadowed(shadow)
  {
    assert order[..|order|] == order;
    var stop := FirstClosed(c, ring, shadow, order);
    if stop == |order| {
      forall p | p in Shadowed(shadow) && p != [] ensures Opened(c, ring, shadow, p).Ok? {
        var j :| 0 <= j < |order| && order[j] == p;
      }
    }
  }

  lemma RestoreNext(c: Cipher, ring: Ring, shadow: Tree, order: seq<Path>, i: nat, before: Tree, after: Tree)
    requires i < |order| && order[i] in Shadowed(shadow) && order[i] != [] && Opened(c, ring, shadow, order[i]).Ok?
    requires Restored(c, ring, shadow, before, Firsts(order, i), after) && NoTemporaries(Shadowed(shadow))
    ensures Restored(c, ring, shadow, before, Firsts(order, i + 1), (after - {TmpPath(order[i])})[order[i] := Opened(c, ring, shadow, order[i]).value])
  {
    FirstsGrow(order, i);
    RestoreOneMore(c, ring, shadow, before, Firsts(order, i), after, order[i]);
  }

  /** Write a temporary beside the target and rename it into place. */
  method WriteAtomically(plain: Tree, p: Path, bytes: Bytes) returns (after: Tree)
    requires p != []
    ensures after == (plain - {TmpPath(p)})[p := bytes]
  {
    var tmp := TmpPath(p);
    after := plain[tmp := bytes];
    after := (after - {tmp})[p := bytes];
  }

  /** Decrypts one file of the walk into the folder. */
  method RestoreFile(c: Cipher, ring: Ring, shadow: Tree, order: seq<Path>, i: nat, ghost before: Tree, now: Tree)
    returns (r: Result<Tree, BlobError>)
    requires NoTemporaries(Shadowed(shadow)) && forall p :: p in order ==> p in Shadowed(shadow)
    requires i < |order| && i <= FirstClosed(c, ring, shadow, order)
    requires Restored(c, ring, shadow, before, Firsts(order, i), now)
    ensures r.Ok? <==> i < FirstClosed(c, ring, shadow, order)
    ensures r.Ok? ==> Restored(c, ring, shadow, before, Firsts(order, i + 1), r.value)
    ensures r.Err? ==> order[i] in Shadowed(shadow) && order[i] != [] && Opened(c, ring, shadow, order[i]) == Err(r.error)
  {
    var rel := order[i];
    assert rel in order;
    ShadowedNotEmpty(shadow, rel);
    ShadowedIff(shadow, rel);
    var decrypted := Decrypt(c, ring, shadow[BinPath(rel)]);
    if decrypted.Err? {
      return Err(decrypted.error);
    }
    RestoreNext(c, ring, shadow, order, i, before, now);
    var after := WriteAtomically(now, rel, decrypted.value);
    return Ok(after);
  }

  lemma NothingRestored(c: Cipher, ring: Ring, shadow: Tree, order: seq<Path>, plain: Tree)
    ensures Restored(c, ring, shadow, plain, Firsts(order, 0), plain)
  {
  }

  lemma FirstsGrow(order: seq<Path>, i: nat)
    requires i < |order|
    ensures Firsts(order, i + 1) == Firsts(order, i) + {order[i]}
  {
    assert order[..i + 1] == order[..i] + [order[i]];
  }

  /** Decrypts every shadow file into the folder, through a temporary and a rename, in the order of the
      walk, stopping at the first that does not open. */
  method SyncShadowToPlaintext(c: Cipher, ring: Ring, shadow: Tree, order: seq<Path>, plain: Tree)
    returns (after: Tree, r: Result<set<Path>, BlobError>)
    requires NoTemporaries(Shadowed(shadow)) && forall p :: p in order <==> p in Shadowed(shadow)
    ensures var stop := FirstClosed(c, ring, shadow, order);
      && Restored(c, ring, shadow, plain, Firsts(order, stop), after)
      && (r.Ok? <==> stop == |order|)
      && (r.Err? ==> Opened(c, ring, shadow, order[stop]) == Err(r.error))
    ensures r.Ok? <==> AllOpen(c, ring, shadow)
    ensures r.Ok? ==> r.value == Firsts(order, |order|) == Shadowed(shadow)
  {
    NothingRestored(c, ring, shadow, order, plain);
    AllOpenIff(c, ring, shadow, order);
    after := plain;
    var manifest: set<Path> := {};
    var i := 0;
    while i < |order|
      invariant 0 <= i <= FirstClosed(c, ring, shadow, order) && manifest == Firsts(order, i)
      invariant Restored(c, ring, shadow, plain, Firsts(order, i), after)
    {
      var restored := RestoreFile(c, ring, shadow, order, i, plain, after);
      if restored.Err? {
        return after, Err(restored.error);
      }
      FirstsGrow(order, i);
      after, manifest, i := restored.value, manifest + {order[i]}, i + 1;
    }
    return after, Ok(manifest);
  }

  predicate IsTemporary(shadow: Tree, p: Path) {
    exists q | q in Shadowed(shadow) :: q != [] && p == TmpPath(q)
  }

  /** The folder after every shadow file has been decrypted into it. */
  function RestoredTree(c: Cipher, ring: Ring, shadow: Tree, before: Tree): Tree
    requires AllOpen(c, ring, shadow)
  {
    map p | p in before.Keys + Shadowed(shadow) && (p in Shadowed(shadow) || !IsTemporary(shadow, p)) ::
      if p in Shadowed(shadow) then
        (ShadowedNotEmpty(shadow, p); Opened(c, ring, shadow, p).value)
      else before[p]
  }

  /** A file of the folder whose name is that of a restored file with `.peerdup-tmp` after it is lost. */
  lemma NamesakeIsLost(c: Cipher, ring: Ring, shadow: Tree, before: Tree, p: Path)
    requires AllOpen(c, ring, shadow) && p in Shadowed(shadow) && p != []
    ensures var namesake := p[..|p| - 1] + [p[|p| - 1] + ".peerdup-tmp"];
      namesake in RestoredTree(c, ring, shadow, before) <==> namesake in Shadowed(shadow)
  {
    assert TmpPath(p) == p[..|p| - 1] + [p[|p| - 1] + ".peerdup-tmp"];
  }

  /** Restoring all of a shadow has one outcome. */
  lemma RestoredIsDetermined(c: Cipher, ring: Ring, shadow: Tree, before: Tree, after: Tree)
    requires AllOpen(c, ring, shadow)
    requires Restored(c, ring, shadow, before, Shadowed(shadow), after)
    ensures after == RestoredTree(c, ring, shadow, before)
  {
    var tree := RestoredTree(c, ring, shadow, before);
    forall p ensures p in after <==> p in tree {
      if p in Shadowed(shadow) {
        ShadowedNotEmpty(shadow, p);
      }
    }
    forall p | p in after ensures after[p] == tree[p] {
      if p in Shadowed(shadow) {
        ShadowedNotEmpty(shadow, p);
        assert Opened(c, ring, shadow, p) == Ok(after[p]);
      }
    }
  }
}
