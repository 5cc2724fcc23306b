# Password vault credential store — Dafny model

This project models the storage engine of a single-user password vault: a
file-backed, ordered list of credential records (username, username hash,
password hash, creation time, label). The engine does four things:

- It loads the whole file into records. An absent file reads as empty. So does
  a file that cannot be parsed.
- It adds a credential by loading, appending one record and rewriting the file.
- It deletes the record at a position by loading, removing it and rewriting the
  file. An index out of range is a no-op that writes nothing.
- It looks up a username/password pair: both are hashed, and the result is the
  first stored record whose two hashes match.

Structure:

- `wrappers.dfy` — `Option`, the "no match" result of a lookup.
- `records.dfy` (module `VaultRecords`) — the record type and the file model.
  The file is `Absent`, `Corrupt` or `Present(nodes)`. `nodes` are the root's
  children: `EntryNode` for `<entry>` elements, `OtherNode` for anything else.
  An entry's fields are `Option<string>`; `None` means that child element is
  missing. Also here: the pure `Load` and `Save` steps, the append loop of the
  loader, and the round-trip lemmas.
- `matching.dfy` (module `VaultLookup`) — the double-hash matching rule. It
  has `FirstMatch` and lemmas tying it to a by-position definition.
- `vault.dfy` (module `VaultStore`) — class `Vault`. Its `const digest` is the
  hash function in effect. Its `var file` is the backing file, which every
  method re-reads. Also here: lemmas about lookups after adds.

Consequences the contracts make explicit:

- Adding to an unparseable file replaces it with a file that holds only the new
  record. This follows from the `AddEntry` postcondition, because an
  unparseable file loads as empty.
- Deleting from an unparseable file never writes, because every index is out of
  range for an empty list.
- Root children other than `<entry>` are dropped by the first add or delete
  that rewrites the file.

Behaviours of the code that the model keeps as written:

- Saving overwrites the file directly rather than atomically.
- A write error is not caught; it propagates to the caller as an exception.
  Write errors are not modelled.
- No digest length or format is assumed.

## Model

| member | source | states |
|---|---|---|
| `VaultRecords.EntryElements` | password_vault.py:60 | the elements visited are exactly the root's `<entry>` children (an element is in the result iff an entry node holding it is among the root's children), never more elements than children |
| `VaultRecords.EntryElementsAppend` | password_vault.py:60 | selecting `<entry>` children keeps document order: the selection of a concatenation is the concatenation of the selections |
| `VaultRecords.DecodeEntries` | password_vault.py:58-68 | the append loop yields exactly one record per `<entry>` element, the k-th record built from the k-th element, with each missing child read as the empty string |
| `VaultRecords.LoadPreservesOrder` | password_vault.py:56-68 | loading a file whose entries are those of `a` followed by those of `b` gives the records of `a` followed by those of `b` |
| `VaultRecords.LoadOneNode` | password_vault.py:59-67 | a single `<entry>` child loads as exactly its own record, and any other child loads as nothing |
| `VaultRecords.Save` | password_vault.py:73-89 | saving writes a parseable file with one child per record, each an `<entry>` carrying all five field children |
| `VaultRecords.EntryElementsOfEncode` | password_vault.py:78-82 | the `<entry>` elements of a saved file are the records, in order, each written with every field |
| `VaultRecords.LoadSave` | password_vault.py:52-89 | loading what was saved gives back the same records, in the same order and with the same count |
| `VaultRecords.LoadStable` | password_vault.py:52-89 | load then save then load reads the same records as the first load, and re-saving a loaded saved file rewrites the same file |
| `VaultLookup.FirstMatch` | password_vault.py:117-120 | a record returned by the scan is one of the stored records and both of its hashes equal the ones asked for |
| `VaultLookup.FirstMatchIsLeastMatch` | password_vault.py:117-120 | the scan returns None exactly when no stored record matches both hashes, and otherwise returns the record at the least matching position |
| `VaultLookup.FirstMatchAppend` | password_vault.py:117-120 | scanning a concatenation returns a match from the front part if there is one, and otherwise the result of scanning the back part |
| `VaultStore.Vault.LoadEntries` | password_vault.py:52-70 | the records read are those of the file; an absent or unparseable file yields the empty sequence and no error |
| `VaultStore.Vault.AddEntry` | password_vault.py:92-103 | the returned record has the username verbatim, `digest` of the username and of the password as its hashes, the given creation time, and the label or `"Default"` when the label is empty; the file is rewritten so that the stored records are the old ones unchanged and in order followed by the new one; duplicates are not rejected; consistent username hashes stay consistent |
| `VaultStore.Vault.DeleteEntry` | password_vault.py:106-110 | for `0 <= index < n` the file is rewritten holding the old records without the one at `index`, all others unchanged and in the same relative order; for any other index the file is left exactly as it was |
| `VaultStore.Vault.LookupEntry` | password_vault.py:113-120 | returns the first stored record whose hashes equal the digests of the given username and password, None when there is none (always None on an empty store); it changes nothing |
| `VaultStore.LookupAfterAdd` | password_vault.py:92-120 | after an add, looking up the same pair finds an earlier matching record if one exists, and otherwise the record just added |
| `VaultStore.LookupNeedsBothDigests` | password_vault.py:118 | for a pair whose username digest or password digest differs from the added record's, the lookup result after the add is the same as before it, for every store; so such a pair never finds the added record |
| `VaultStore.DuplicateUsernamesStayDistinct` | password_vault.py:92-103 | adding one username twice with passwords of different digests stores two distinct records, and each password finds its own record |

## Left out

- `md5_hash`: MD5 is a foreign call. It is modelled as `Vault.digest`, a function fixed when the vault is built. Nothing is assumed of it: not injectivity, not output length, not hex format.
- The XML text layer (ElementTree serialisation, minidom pretty-printing, the parser) is not modelled; the file is the parsed tree. The text layer has behaviours the model does not capture. Parsing turns a carriage return in a saved value into a line feed. A value holding a control character makes `minidom.parseString` raise inside `save_db`, so that add fails with an exception and writes nothing.
- `VaultRecords.LoadSave` is proved for the parsed tree only. It does not cover the text round trip, for the reasons in the line above.
- The `version` and `updated` attributes of the root are not modelled. The first is never read back. The second is the save time from the clock.
- The clock (`datetime.now()`) is not modelled. The creation time is a parameter of `AddEntry`.
- Filesystem plumbing is not modelled: the `DB_FILE` path, `os.path.exists`, `open` and write errors. An unreadable existing file is `Corrupt`, matching the catch-all handler. A failed or partial write has no counterpart.
- The tkinter user interface is not part of this model. That includes its form checks and its `strip()` of inputs before calling the engine.
