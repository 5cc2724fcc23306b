/**
 * The credential store engine: a vault bound to one backing file. Every
 * operation re-reads the whole file; add and delete change the list of
 * records in memory and then overwrite the file with all of it.
 */
module VaultStore {
  import opened Wrappers
  import opened VaultRecords
  import opened VaultLookup

  /** The label stored when the caller gives none. */
  const DefaultLabel: string := "Default"

  /** The record an add builds from its inputs; the plaintext password is kept only as its digest. */
  function NewRecord(digest: string -> string, username: string, password: string,
                     created: string, entryLabel: string): Record
  {
    Record(username, digest(username), digest(password), created,
           if entryLabel == "" then DefaultLabel else entryLabel)
  }

  /** Every stored username hash is the digest of the stored username. */
  predicate UsernameHashesConsistent(records: seq<Record>, digest: string -> string) {
    forall k :: 0 <= k < |records| ==> records[k].usernameHash == digest(records[k].username)
  }

  class Vault {
    /** The digest in effect, fixed for the lifetime of the vault. */
    const digest: string -> string
    /** The backing file: the only copy of the records. */
    var file: FileState

    constructor (digest: string -> string, file: FileState)
      ensures this.digest == digest && this.file == file
    {
      this.digest := digest;
      this.file := file;
    }

    /** The records the backing file currently holds. */
    ghost function Entries(): seq<Record>
      reads this
    {
      Load(file)
    }

    /** Reads every record of the backing file, in file order; an absent or unparseable file reads as empty. */
    method LoadEntries() returns (entries: seq<Record>)
      ensures entries == Entries()
      ensures !file.Present? ==> entries == []
      ensures file.Present? ==> entries == Decode(EntryElements(file.nodes))
    {
      match file
      case Absent =>
        entries := [];
      case Corrupt =>
        entries := [];
      case Present(nodes) =>
        entries := DecodeEntries(EntryElements(nodes));
    }

    /**
     * Stores a new credential after all existing ones and returns it. A
     * username already present is stored again as a separate record.
     */
    method AddEntry(username: string, password: string, entryLabel: string, created: string)
      returns (entry: Record)
      modifies this
      ensures entry.username == username
      ensures entry.usernameHash == digest(username) && entry.passwordHash == digest(password)
      ensures entry.created == created
      ensures entry.entryLabel == if entryLabel == "" then DefaultLabel else entryLabel
      ensures file == Save(old(Entries()) + [entry])
      ensures Entries() == old(Entries()) + [entry]
      ensures |Entries()| == |old(Entries())| + 1 && Entries()[|Entries()| - 1] == entry
      ensures forall k :: 0 <= k < |old(Entries())| ==> Entries()[k] == old(Entries())[k]
      ensures UsernameHashesConsistent(old(Entries()), digest) ==> UsernameHashesConsistent(Entries(), digest)
    {
      var entries := LoadEntries();
      entry := NewRecord(digest, username, password, created, entryLabel);
      entries := entries + [entry];
      file := Save(entries);
      LoadSave(entries);
    }

    /**
     * Removes the record at `index` when it is a valid position; otherwise
     * does nothing and leaves the file exactly as it was.
     */
    method DeleteEntry(index: int)
      modifies this
      ensures 0 <= index < |old(Entries())| ==>
                file == Save(old(Entries())[..index] + old(Entries())[index + 1..]) &&
                Entries() == old(Entries())[..index] + old(Entries())[index + 1..]
      ensures 0 <= index < |old(Entries())| ==>
                |Entries()| == |old(Entries())| - 1 &&
                (forall k :: 0 <= k < index ==> Entries()[k] == old(Entries())[k]) &&
                (forall k :: index <= k < |Entries()| ==> Entries()[k] == old(Entries())[k + 1])
      ensures !(0 <= index < |old(Entries())|) ==> file == old(file)
      ensures UsernameHashesConsistent(old(Entries()), digest) ==> UsernameHashesConsistent(Entries(), digest)
    {
      var entries := LoadEntries();
      if 0 <= index < |entries| {
        entries := entries[..index] + entries[index + 1..];
        file := Save(entries);
        LoadSave(entries);
      }
    }

    /** The first stored record whose username and password hashes both equal the digests of the inputs. */
    method LookupEntry(username: string, password: string) returns (found: Option<Record>)
      ensures found == FirstMatch(Entries(), digest(username), digest(password))
      ensures found.Some? ==>
                found.value in Entries() &&
                found.value.usernameHash == digest(username) && found.value.passwordHash == digest(password)
      ensures Entries() == [] ==> found == None
    {
      var uHash := digest(username);
      var pHash := digest(password);
      var entries := LoadEntries();
      var i := 0;
      while i < |entries|
        invariant 0 <= i <= |entries|
        invariant FirstMatch(entries[i..], uHash, pHash) == FirstMatch(entries, uHash, pHash)
      {
        if entries[i].usernameHash == uHash && entries[i].passwordHash == pHash {
          return Some(entries[i]);
        }
        assert entries[i..][1..] == entries[i + 1..];
        i := i + 1;
      }
      return None;
    }
  }

  /**
   * Looking up the credential just added finds an earlier record that
   * matches the same pair if there is one, and the added record otherwise.
   */
  lemma LookupAfterAdd(digest: string -> string, entries: seq<Record>, username: string, password: string,
                       created: string, entryLabel: string)
    ensures var added := NewRecord(digest, username, password, created, entryLabel);
            var earlier := FirstMatch(entries, digest(username), digest(password));
            FirstMatch(entries + [added], digest(username), digest(password)) ==
              if earlier.Some? then earlier else Some(added)
  {
    FirstMatchAppend(entries, [NewRecord(digest, username, password, created, entryLabel)],
                     digest(username), digest(password));
  }

  /**
   * Adding a credential does not change what a lookup finds for a pair whose
   * username digest or password digest differs from the added record's: both
   * must match. In particular such a pair still finds nothing on a store where
   * it found nothing before.
   */
  lemma LookupNeedsBothDigests(digest: string -> string, entries: seq<Record>, username: string, password: string,
                               created: string, entryLabel: string, askedUser: string, askedPassword: string)
    requires digest(askedUser) != digest(username) || digest(askedPassword) != digest(password)
    ensures FirstMatch(entries + [NewRecord(digest, username, password, created, entryLabel)],
                       digest(askedUser), digest(askedPassword)) ==
            FirstMatch(entries, digest(askedUser), digest(askedPassword))
  {
    FirstMatchAppend(entries, [NewRecord(digest, username, password, created, entryLabel)],
                     digest(askedUser), digest(askedPassword));
  }

  /**
   * Adding the same username twice with passwords of different digests
   * stores two records; each password finds its own record.
   */
  lemma DuplicateUsernamesStayDistinct(digest: string -> string, entries: seq<Record>, username: string,
                                       firstPassword: string, secondPassword: string,
                                       firstCreated: string, secondCreated: string,
                                       firstLabel: string, secondLabel: string)
    requires FirstMatch(entries, digest(username), digest(firstPassword)) == None
    requires FirstMatch(entries, digest(username), digest(secondPassword)) == None
    requires digest(firstPassword) != digest(secondPassword)
    ensures var first := NewRecord(digest, username, firstPassword, firstCreated, firstLabel);
            var second := NewRecord(digest, username, secondPassword, secondCreated, secondLabel);
            var stored := entries + [first] + [second];
            && |stored| == |entries| + 2
            && first != second
            && FirstMatch(stored, digest(username), digest(firstPassword)) == Some(first)
            && FirstMatch(stored, digest(username), digest(secondPassword)) == Some(second)
  {
    var uHash, p1, p2 := digest(username), digest(firstPassword), digest(secondPassword);
    var first := NewRecord(digest, username, firstPassword, firstCreated, firstLabel);
    var second := NewRecord(digest, username, secondPassword, secondCreated, secondLabel);
    LookupAfterAdd(digest, entries, username, firstPassword, firstCreated, firstLabel);
    FirstMatchAppend(entries + [first], [second], uHash, p1);
    FirstMatchAppend(entries, [first], uHash, p2);
    assert FirstMatch(entries + [first], uHash, p2) == None;
    LookupAfterAdd(digest, entries + [first], username, secondPassword, secondCreated, secondLabel);
  }
}
