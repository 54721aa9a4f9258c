/** File publications: content filed under its digest, and receipts that mean what they say. */
module Files {
  import opened Basics
  import opened Records
  import opened Custody

  type Store = map<Digest<Content>, Content>

  /** Every stored item has the digest it is filed under. */
  ghost predicate Named(content: Store) {
    forall h {:trigger h in content} :: h in content ==> h == Sha256(content[h])
  }

  /** The store has the announced content, checked by size and by hashing it again. */
  predicate Owned(content: Store, p: Publication) {
    p.sha256 in content && |content[p.sha256]| == p.size && Sha256(content[p.sha256]) == p.sha256
  }

  /** A record fits its publication; `local-policy` is only ever said of owned content. */
  predicate RecordStands(record: FileRecord, content: Store) {
    && record.fingerprint == PublicationFingerprint(record.publication)
    && record.receipt.publication == record.publication.id
    && record.receipt.sha256 == record.publication.sha256
    && (record.receipt.reason.LocalPolicy? ==> Owned(content, record.publication))
    && (record.receipt.reason.HashMismatch? ==> record.receipt.outcome.Rejected?)
    && !record.receipt.reason.NativeAdmissionRejected?
  }

  ghost predicate FilesKept(files: map<string, FileRecord>, content: Store) {
    && Named(content)
    && forall id {:trigger id in files} :: id in files ==> files[id].publication.id == id && RecordStands(files[id], content)
  }

  /** The decision after a transfer: the configured outcome for valid content, else a rejection. */
  function Settled(policy: FileOutcome, p: Publication, valid: bool): FileRecord {
    FileRecord(PublicationFingerprint(p), p,
               FileReceipt(p.id, p.sha256, if valid then policy else Rejected, if valid then LocalPolicy else HashMismatch))
  }

  predicate Arrived(p: Publication, bytes: Content) {
    |bytes| == p.size && Sha256(bytes) == p.sha256
  }

  /** Content is moved into place only when it is what was announced. */
  function Placed(content: Store, p: Publication, bytes: Content): Store {
    if Arrived(p, bytes) then content[p.sha256 := bytes] else content
  }

  /** Moving content into place never alters content that was there. */
  lemma PlacingKeeps(files: map<string, FileRecord>, content: Store, p: Publication, bytes: Content)
    requires FilesKept(files, content)
    ensures FilesKept(files, Placed(content, p, bytes))
    ensures forall h :: h in content ==> h in Placed(content, p, bytes) && Placed(content, p, bytes)[h] == content[h]
    ensures Owned(Placed(content, p, bytes), p) || !Arrived(p, bytes)
  {
    var placed := Placed(content, p, bytes);
    forall h | h in content
      ensures h in placed && placed[h] == content[h]
    {
      assert h == Sha256(content[h]);
    }
    forall id | id in files
      ensures files[id].publication.id == id && RecordStands(files[id], placed)
    {
      assert RecordStands(files[id], content);
    }
  }

  /** Recording the decision keeps every record backed, whichever way the content came. */
  lemma SettlingKeeps(files: map<string, FileRecord>, content: Store, policy: FileOutcome, p: Publication, valid: bool)
    requires FilesKept(files, content) && (valid ==> Owned(content, p))
    ensures FilesKept(files[p.id := Settled(policy, p, valid)], content)
  {
  }

  /** The record of a decision: for genuine content the configured outcome and local-policy, else a
      rejection for a hash mismatch; under the publication's identity, digest and fingerprint. */
  lemma SettledMeaning(policy: FileOutcome, p: Publication, valid: bool)
    ensures Settled(policy, p, valid) ==
              FileRecord(Sha256(p.(path := [p.origin])), p,
                         if valid then FileReceipt(p.id, p.sha256, policy, LocalPolicy)
                         else FileReceipt(p.id, p.sha256, FileOutcome.Rejected, HashMismatch))
  {
  }

  /** Content is genuine exactly when it has the announced size and digest; only then is it stored,
      under its digest, and nothing else changes. */
  lemma PlacedMeaning(content: Store, p: Publication, bytes: Content)
    ensures Arrived(p, bytes) <==> |bytes| == p.size && p.sha256 == Sha256(bytes)
    ensures Placed(content, p, bytes) ==
              if |bytes| == p.size && p.sha256 == Sha256(bytes) then content[Sha256(bytes) := bytes] else content
  {
  }

  /** Among content filed under its digests, owned means there, with the announced size. */
  lemma OwnedMeaning(content: Store, p: Publication)
    requires Named(content)
    ensures Owned(content, p) <==> p.sha256 in content && |content[p.sha256]| == p.size
  {
  }
}
