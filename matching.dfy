/**
 * The matching rule of a credential lookup: the first stored record, in
 * stored order, whose username hash and password hash both equal the given
 * ones. Comparison is plain string equality on the hashes.
 */
module VaultLookup {
  import opened Wrappers
  import opened VaultRecords

  /** A record matches when both of its hashes are the ones asked for. */
  predicate Matches(r: Record, uHash: string, pHash: string) {
    r.usernameHash == uHash && r.passwordHash == pHash
  }

  /** The first record of `entries` that matches, or None. */
  function FirstMatch(entries: seq<Record>, uHash: string, pHash: string): (found: Option<Record>)
    ensures found.Some? ==> found.value in entries && Matches(found.value, uHash, pHash)
  {
    if entries == [] then None
    else if Matches(entries[0], uHash, pHash) then Some(entries[0])
    else FirstMatch(entries[1..], uHash, pHash)
  }

  /**
   * FirstMatch against its definition by positions: it is None exactly when
   * no record matches, and otherwise it is the record at the least matching
   * position.
   */
  lemma {:induction false} FirstMatchIsLeastMatch(entries: seq<Record>, uHash: string, pHash: string)
    ensures FirstMatch(entries, uHash, pHash) == None <==>
              forall i :: 0 <= i < |entries| ==> !Matches(entries[i], uHash, pHash)
    ensures forall i :: 0 <= i < |entries| && Matches(entries[i], uHash, pHash) &&
                        (forall j :: 0 <= j < i ==> !Matches(entries[j], uHash, pHash))
                    ==> FirstMatch(entries, uHash, pHash) == Some(entries[i])
  {
    if entries != [] {
      FirstMatchIsLeastMatch(entries[1..], uHash, pHash);
      assert forall i :: 1 <= i < |entries| ==> entries[i] == entries[1..][i - 1];
      if !Matches(entries[0], uHash, pHash) {
        forall i | 0 <= i < |entries| && Matches(entries[i], uHash, pHash) &&
                   (forall j :: 0 <= j < i ==> !Matches(entries[j], uHash, pHash))
          ensures FirstMatch(entries, uHash, pHash) == Some(entries[i])
        {
          assert i >= 1;
          assert forall j :: 0 <= j < i - 1 ==> entries[1..][j] == entries[j + 1];
        }
      }
    }
  }

  /** Searching a concatenation finds a match of the front part if there is one, and otherwise searches the back part. */
  lemma {:induction false} FirstMatchAppend(a: seq<Record>, b: seq<Record>, uHash: string, pHash: string)
    ensures FirstMatch(a + b, uHash, pHash) ==
              if FirstMatch(a, uHash, pHash).Some? then FirstMatch(a, uHash, pHash) else FirstMatch(b, uHash, pHash)
  {
    if a == [] {
      assert a + b == b;
    } else {
      assert (a + b)[0] == a[0];
      assert (a + b)[1..] == a[1..] + b;
      FirstMatchAppend(a[1..], b, uHash, pHash);
    }
  }
}
