/**
 * The on-disk form of the credential store and the two pure steps over it:
 * reading the file into an ordered sequence of records (Load) and writing a
 * sequence of records back as a whole new file (Save).
 *
 * The file is modelled as the tree the XML library would hand back, not as
 * text: the root's children in document order, and for each <entry> the
 * text of its first child with each of the five field names, if any.
 */
module VaultRecords {
  import opened Wrappers

  /** One stored credential, as the store hands it to its callers. */
  datatype Record = Record(
    username: string,
    usernameHash: string,
    passwordHash: string,
    created: string,
    entryLabel: string)

  /** One <entry> element as parsed: each field is the text of the child of that name, or None when the child is missing. */
  datatype RawEntry = RawEntry(
    username: Option<string>,
    usernameHash: Option<string>,
    passwordHash: Option<string>,
    created: Option<string>,
    entryLabel: Option<string>)

  /** A child of the <vault> root: an <entry> element, or any other element (which loading skips). */
  datatype Node = EntryNode(entry: RawEntry) | OtherNode

  /** The backing file: not there yet, there but not parseable, or a parsed tree. */
  datatype FileState = Absent | Corrupt | Present(nodes: seq<Node>)

  /** An entry element that carries all five children. */
  predicate Complete(e: RawEntry) {
    e.username.Some? && e.usernameHash.Some? && e.passwordHash.Some? && e.created.Some? && e.entryLabel.Some?
  }

  /** The record built from one <entry>: a missing child reads as the empty string. */
  function ToRecord(e: RawEntry): Record {
    Record(e.username.GetOr(""), e.usernameHash.GetOr(""), e.passwordHash.GetOr(""),
           e.created.GetOr(""), e.entryLabel.GetOr(""))
  }

  /** The <entry> element written for one record: one child per field. */
  function ToRaw(r: Record): RawEntry {
    RawEntry(Some(r.username), Some(r.usernameHash), Some(r.passwordHash), Some(r.created), Some(r.entryLabel))
  }

  /** The root's <entry> children in document order; other children are skipped. */
  function EntryElements(nodes: seq<Node>): (es: seq<RawEntry>)
    ensures |es| <= |nodes|
    ensures forall e :: e in es <==> EntryNode(e) in nodes
  {
    if nodes == [] then []
    else
      var rest := EntryElements(nodes[1..]);
      assert forall n :: n in nodes <==> n == nodes[0] || n in nodes[1..];
      match nodes[0]
      case EntryNode(e) => [e] + rest
      case OtherNode => rest
  }

  /** The records read from a list of <entry> elements, one per element, in the same order. */
  function Decode(es: seq<RawEntry>): seq<Record> {
    seq(|es|, k requires 0 <= k < |es| => ToRecord(es[k]))
  }

  /** What loading the file yields: nothing for an absent or unparseable file, never an error. */
  function Load(file: FileState): seq<Record> {
    match file
    case Absent => []
    case Corrupt => []
    case Present(nodes) => Decode(EntryElements(nodes))
  }

  /** The children of the root that saving writes: one complete <entry> per record. */
  function Encode(records: seq<Record>): seq<Node> {
    seq(|records|, k requires 0 <= k < |records| => EntryNode(ToRaw(records[k])))
  }

  /** The file that saving a sequence of records leaves behind. */
  function Save(records: seq<Record>): (file: FileState)
    ensures file.Present? && |file.nodes| == |records|
    ensures forall k :: 0 <= k < |file.nodes| ==> file.nodes[k].EntryNode? && Complete(file.nodes[k].entry)
  {
    Present(Encode(records))
  }

  /** The loop that turns the <entry> elements into records, appending one record per element. */
  method DecodeEntries(es: seq<RawEntry>) returns (entries: seq<Record>)
    ensures |entries| == |es|
    ensures forall k :: 0 <= k < |es| ==> entries[k] == ToRecord(es[k])
    ensures entries == Decode(es)
  {
    entries := [];
    for i := 0 to |es|
      invariant |entries| == i
      invariant forall k :: 0 <= k < i ==> entries[k] == ToRecord(es[k])
    {
      entries := entries + [ToRecord(es[i])];
    }
  }

  /** Skipping the children that are not <entry> elements commutes with concatenation: document order is kept. */
  lemma {:induction false} EntryElementsAppend(a: seq<Node>, b: seq<Node>)
    ensures EntryElements(a + b) == EntryElements(a) + EntryElements(b)
  {
    if a == [] {
      assert a + b == b;
    } else {
      assert (a + b)[1..] == a[1..] + b;
      EntryElementsAppend(a[1..], b);
    }
  }

  /** Loading a file whose root holds the children of `a` followed by those of `b` reads the records of `a` first, then those of `b`. */
  lemma LoadPreservesOrder(a: seq<Node>, b: seq<Node>)
    ensures Load(Present(a + b)) == Load(Present(a)) + Load(Present(b))
  {
    EntryElementsAppend(a, b);
  }

  /** Only the <entry> elements give records, and each gives exactly its own. */
  lemma LoadOneNode(n: Node)
    ensures Load(Present([n])) == if n.EntryNode? then [ToRecord(n.entry)] else []
  {
  }

  /** The <entry> elements of a saved file are exactly the records written out, in order. */
  lemma {:induction false} EntryElementsOfEncode(records: seq<Record>)
    ensures EntryElements(Encode(records)) == seq(|records|, k requires 0 <= k < |records| => ToRaw(records[k]))
  {
    if records != [] {
      assert Encode(records)[1..] == Encode(records[1..]);
      EntryElementsOfEncode(records[1..]);
    }
  }

  /** Saving a sequence of records and loading it again gives back the same sequence. */
  lemma LoadSave(records: seq<Record>)
    ensures Load(Save(records)) == records
  {
    EntryElementsOfEncode(records);
  }

  /** Loading and immediately saving neither reorders nor changes the records read, and saving what was loaded from a saved file rewrites the same file. */
  lemma LoadStable(file: FileState, records: seq<Record>)
    ensures Load(Save(Load(file))) == Load(file)
    ensures Save(Load(Save(records))) == Save(records)
  {
    LoadSave(Load(file));
    LoadSave(records);
  }
}
