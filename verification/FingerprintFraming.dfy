/** The byte stream that identifies an extension build: length-prefixed items, fed to a
    hash one by one, from which the whole inventory can be read back. */
module FingerprintFraming {
  import opened Outcomes
  import opened Sequences

  type Byte = x: int | 0 <= x < 256
  type Bytes = seq<Byte>

  // --------------------------------------------------- length prefixes

  function Pow256(k: nat): nat {
    if k == 0 then 1 else 256 * Pow256(k - 1)
  }

  /** `n` in `k` bytes, most significant first. */
  function BigEndian(n: nat, k: nat): (r: Bytes)
    ensures |r| == k
  {
    if k == 0 then [] else BigEndian(n / 256, k - 1) + [n % 256]
  }

  function Value(bytes: Bytes): nat {
    if bytes == [] then 0 else Value(bytes[..|bytes| - 1]) * 256 + bytes[|bytes| - 1]
  }

  lemma {:induction false} ValueOfBigEndian(n: nat, k: nat)
    requires n < Pow256(k)
    ensures Value(BigEndian(n, k)) == n
    decreases k
  {
    if k > 0 {
      var r := BigEndian(n, k);
      assert n / 256 < Pow256(k - 1);
      ValueOfBigEndian(n / 256, k - 1);
      assert r[..k - 1] == BigEndian(n / 256, k - 1);
    }
  }

  const PREFIX := 8

  /** Lengths that fit the eight-byte prefix. */
  predicate Framable(payload: Bytes) {
    |payload| < Pow256(PREFIX)
  }

  ghost predicate AllFramable(payloads: seq<Bytes>) {
    forall i :: 0 <= i < |payloads| ==> Framable(payloads[i])
  }

  lemma PrefixLimit()
    ensures Pow256(PREFIX) == 0x1_0000_0000_0000_0000
  {
    assert Pow256(4) == 0x1_0000_0000;
    assert Pow256(8) == 256 * (256 * (256 * (256 * Pow256(4))));
  }

  // ----------------------------------------------------------- framing

  function Frame(payload: Bytes): Bytes {
    BigEndian(|payload|, PREFIX) + payload
  }

  function Frames(payloads: seq<Bytes>): Bytes {
    if payloads == [] then [] else Frame(payloads[0]) + Frames(payloads[1..])
  }

  /** Read a stream back into its payloads. */
  function Unframe(stream: Bytes): Option<seq<Bytes>>
    decreases |stream|
  {
    if stream == [] then Some([])
    else if |stream| < PREFIX then None
    else
      var n := Value(stream[..PREFIX]);
      if |stream| - PREFIX < n then None
      else
        var rest := Unframe(stream[PREFIX + n..]);
        if rest.None? then None else Some([stream[PREFIX..PREFIX + n]] + rest.value)
  }

  lemma {:induction false} UnframeFrames(payloads: seq<Bytes>)
    requires AllFramable(payloads)
    ensures Unframe(Frames(payloads)) == Some(payloads)
    decreases |payloads|
  {
    if payloads != [] {
      var first, rest := payloads[0], payloads[1..];
      UnframeFrames(rest);
      UnframeOne(first, Frames(rest));
      assert payloads == [first] + rest;
    }
  }

  lemma {:induction false} UnframeOne(payload: Bytes, tail: Bytes)
    requires Framable(payload)
    ensures var rest := Unframe(tail);
            Unframe(Frame(payload) + tail) == if rest.None? then None else Some([payload] + rest.value)
  {
    var stream := Frame(payload) + tail;
    ValueOfBigEndian(|payload|, PREFIX);
    assert stream[..PREFIX] == BigEndian(|payload|, PREFIX);
    assert stream[PREFIX..PREFIX + |payload|] == payload;
    assert stream[PREFIX + |payload|..] == tail;
  }

  // --------------------------------------------------------- inventories

  /** One tracked input, in sorted path order: its contents, or that it is gone. */
  datatype Entry = Present(path: Bytes, content: Bytes) | Missing(path: Bytes)

  datatype Inventory = Inventory(entries: seq<Entry>, settings: Bytes)

  predicate Ascii(s: string) {
    forall i :: 0 <= i < |s| ==> s[i] as int < 128
  }

  function Encoded(s: string): Bytes
    requires Ascii(s)
  {
    seq(|s|, i requires 0 <= i < |s| => s[i] as int)
  }

  const VERSION: Bytes := Encoded("extension-build-evidence-v1")
  const PRESENT: Bytes := Encoded("file")
  const MISSING: Bytes := Encoded("missing")

  function EntryPayloads(entry: Entry): seq<Bytes> {
    match entry
    case Present(path, content) => [path, PRESENT, content]
    case Missing(path) => [path, MISSING]
  }

  function AllEntryPayloads(entries: seq<Entry>): seq<Bytes> {
    if entries == [] then [] else EntryPayloads(entries[0]) + AllEntryPayloads(entries[1..])
  }

  function Payloads(inv: Inventory): seq<Bytes> {
    [VERSION] + AllEntryPayloads(inv.entries) + [inv.settings]
  }

  /** The bytes fed to the hash for an inventory. */
  function Stream(inv: Inventory): Bytes {
    Frames(Payloads(inv))
  }

  /** Read entries off a payload list whose last payload is the settings. */
  function ReadEntries(payloads: seq<Bytes>): Option<Inventory>
    decreases |payloads|
  {
    if payloads == [] then None
    else if |payloads| == 1 then Some(Inventory([], payloads[0]))
    else if payloads[1] == MISSING then
      var rest := ReadEntries(payloads[2..]);
      if rest.None? then None else Some(Inventory([Missing(payloads[0])] + rest.value.entries, rest.value.settings))
    else if payloads[1] == PRESENT && |payloads| >= 3 then
      var rest := ReadEntries(payloads[3..]);
      if rest.None? then None
      else Some(Inventory([Present(payloads[0], payloads[2])] + rest.value.entries, rest.value.settings))
    else None
  }

  function Decode(stream: Bytes): Option<Inventory> {
    var payloads := Unframe(stream);
    if payloads.None? || payloads.value == [] || payloads.value[0] != VERSION then None
    else ReadEntries(payloads.value[1..])
  }

  lemma {:induction false} ReadBackEntries(entries: seq<Entry>, settings: Bytes)
    ensures ReadEntries(AllEntryPayloads(entries) + [settings]) == Some(Inventory(entries, settings))
    decreases |entries|
  {
    if entries == [] {
      assert AllEntryPayloads(entries) + [settings] == [settings];
    } else {
      var own, rest := EntryPayloads(entries[0]), AllEntryPayloads(entries[1..]) + [settings];
      assert AllEntryPayloads(entries) + [settings] == own + rest;
      ReadBackEntries(entries[1..], settings);
      ReadOneEntry(entries[0], rest);
      assert entries == [entries[0]] + entries[1..];
    }
  }

  lemma {:induction false} ReadOneEntry(entry: Entry, payloads: seq<Bytes>)
    requires payloads != []
    ensures var rest := ReadEntries(payloads);
            ReadEntries(EntryPayloads(entry) + payloads) ==
            if rest.None? then None else Some(Inventory([entry] + rest.value.entries, rest.value.settings))
  {
    var own := EntryPayloads(entry);
    var all := own + payloads;
    assert all[|own|..] == payloads;
    assert all[0] == own[0] && all[1] == own[1];
    assert |PRESENT| == 4 && |MISSING| == 7;
    if entry.Present? {
      assert all[2] == own[2];
    }
  }

  ghost predicate FramableInventory(inv: Inventory) {
    AllFramable(Payloads(inv))
  }

  /** The stream decodes back to the inventory it was made from. */
  lemma {:induction false} StreamDecodes(inv: Inventory)
    requires FramableInventory(inv)
    ensures Decode(Stream(inv)) == Some(inv)
  {
    UnframeFrames(Payloads(inv));
    ReadBackEntries(inv.entries, inv.settings);
    assert Payloads(inv)[1..] == AllEntryPayloads(inv.entries) + [inv.settings];
  }

  /** Two inventories with one stream are one inventory. */
  lemma {:induction false} StreamIdentifiesInventory(a: Inventory, b: Inventory)
    requires FramableInventory(a) && FramableInventory(b) && Stream(a) == Stream(b)
    ensures a == b
  {
    StreamDecodes(a);
    StreamDecodes(b);
  }

  // ------------------------------------------------------- one inventory

  lemma {:induction false} ShortFrame(payload: Bytes)
    requires |payload| < 256
    ensures Frame(payload) == [0, 0, 0, 0, 0, 0, 0, |payload|] + payload
  {
    var n := |payload|;
    Zeros(7);
    assert BigEndian(n, 8) == BigEndian(n / 256, 7) + [n % 256];
    assert n / 256 == 0 && n % 256 == n;
  }

  lemma {:induction false} Zeros(k: nat)
    ensures BigEndian(0, k) == seq(k, _ => 0)
  {
    if k > 0 {
      Zeros(k - 1);
    }
  }

  lemma {:induction false} PresentFrames(path: Byte, content: Byte)
    ensures Frames(EntryPayloads(Present([path], [content]))) ==
            [0, 0, 0, 0, 0, 0, 0, 1, path] + [0, 0, 0, 0, 0, 0, 0, 4, 102, 105, 108, 101]
            + [0, 0, 0, 0, 0, 0, 0, 1, content]
  {
    FramesOfThree([path], PRESENT, [content]);
    ShortFrame([path]);
    assert PRESENT == [102, 105, 108, 101];
    ShortFrame(PRESENT);
    ShortFrame([content]);
  }

  lemma {:induction false} MissingFrames(path: Byte)
    ensures Frames(EntryPayloads(Missing([path]))) ==
            [0, 0, 0, 0, 0, 0, 0, 1, path] + [0, 0, 0, 0, 0, 0, 0, 7, 109, 105, 115, 115, 105, 110, 103]
  {
    FramesOfTwo([path], MISSING);
    ShortFrame([path]);
    assert MISSING == [109, 105, 115, 115, 105, 110, 103];
    ShortFrame(MISSING);
  }

  lemma {:induction false} FramesOfEntries(first: Entry, second: Entry)
    ensures Frames(AllEntryPayloads([first, second])) == Frames(EntryPayloads(first)) + Frames(EntryPayloads(second))
  {
    var entries := [first, second];
    var last := [second];
    assert entries[1..] == last && last[1..] == [];
    assert AllEntryPayloads(last) == EntryPayloads(second) + AllEntryPayloads([]);
    assert AllEntryPayloads(entries) == EntryPayloads(first) + EntryPayloads(second);
    FramesConcat(EntryPayloads(first), EntryPayloads(second));
  }

  /** A present file "a" that holds the byte 7, a missing file "b", and empty settings, byte by
      byte after the version. */
  lemma {:induction false} SmallStream()
    ensures Stream(Inventory([Present([97], [7]), Missing([98])], [])) ==
            ([0, 0, 0, 0, 0, 0, 0, 27] + Encoded("extension-build-evidence-v1"))
            + (([0, 0, 0, 0, 0, 0, 0, 1, 97] + [0, 0, 0, 0, 0, 0, 0, 4, 102, 105, 108, 101]
                + [0, 0, 0, 0, 0, 0, 0, 1, 7])
               + ([0, 0, 0, 0, 0, 0, 0, 1, 98] + [0, 0, 0, 0, 0, 0, 0, 7, 109, 105, 115, 115, 105, 110, 103]))
            + [0, 0, 0, 0, 0, 0, 0, 0]
  {
    InventoryFrames(Inventory([Present([97], [7]), Missing([98])], []));
    FramesOfEntries(Present([97], [7]), Missing([98]));
    PresentFrames(97, 7);
    MissingFrames(98);
    VersionFrame();
    ShortFrame([]);
  }

  lemma {:induction false} VersionFrame()
    ensures Frame(VERSION) == [0, 0, 0, 0, 0, 0, 0, 27] + Encoded("extension-build-evidence-v1")
  {
    ShortFrame(VERSION);
  }

  // -------------------------------------------------------- the digest

  /** A running digest, known by the bytes it has been fed. */
  class Digest {
    var fed: Bytes

    constructor ()
      ensures fed == []
    {
      fed := [];
    }

    method Update(bytes: Bytes)
      modifies this
      ensures fed == old(fed) + bytes
    {
      fed := fed + bytes;
    }

    /** `include`: refuses a payload whose length does not fit eight bytes. */
    method Include(payload: Bytes) returns (ok: bool)
      modifies this
      ensures ok <==> Framable(payload)
      ensures fed == if ok then old(fed) + Frame(payload) else old(fed)
    {
      if |payload| >= Pow256(PREFIX) {
        return false;
      }
      Update(BigEndian(|payload|, PREFIX));
      Update(payload);
      assert old(fed) + BigEndian(|payload|, PREFIX) + payload == old(fed) + Frame(payload);
      return true;
    }

    /** Path, presence and contents of one tracked input. */
    method IncludeEntry(entry: Entry) returns (ok: bool)
      modifies this
      ensures ok <==> AllFramable(EntryPayloads(entry))
      ensures ok ==> fed == old(fed) + Frames(EntryPayloads(entry))
    {
      EntryFeeds(old(fed), entry);
      EntryFramable(entry);
      ok := Include(entry.path);
      if ok {
        ok := Include(if entry.Present? then PRESENT else MISSING);
      }
      if ok && entry.Present? {
        ok := Include(entry.content);
      }
    }
  }

  /** The file loop: path, presence, and contents of each tracked input. */
  method FeedEntries(digest: Digest, entries: seq<Entry>) returns (ok: bool)
    modifies digest
    ensures ok <==> AllFramable(AllEntryPayloads(entries))
    ensures ok ==> digest.fed == old(digest.fed) + Frames(AllEntryPayloads(entries))
  {
    for i := 0 to |entries|
      invariant AllFramable(AllEntryPayloads(entries[..i]))
      invariant digest.fed == old(digest.fed) + Frames(AllEntryPayloads(entries[..i]))
    {
      EntryFrames(old(digest.fed), entries, i);
      ok := digest.IncludeEntry(entries[i]);
      if !ok {
        EntryTooLong(entries, i);
        return;
      }
    }
    assert entries[..|entries|] == entries;
    return true;
  }

  /** `fingerprint`: the hash of exactly the inventory's stream. */
  method Fingerprint(inv: Inventory, hash: Bytes -> string) returns (r: Option<string>)
    ensures r.Some? <==> FramableInventory(inv)
    ensures r.Some? ==> r.value == hash(Stream(inv))
  {
    InventoryFrames(inv);
    InventoryFramable(inv);
    var digest := new Digest();
    var ok := digest.Include(VERSION);
    assert [] + Frame(VERSION) == Frame(VERSION);
    if ok {
      ok := FeedEntries(digest, inv.entries);
    }
    if ok {
      ok := digest.Include(inv.settings);
    }
    if !ok {
      return None;
    }
    return Some(hash(digest.fed));
  }

  lemma {:induction false} InventoryFrames(inv: Inventory)
    ensures Stream(inv) == Frame(VERSION) + Frames(AllEntryPayloads(inv.entries)) + Frame(inv.settings)
  {
    var middle := AllEntryPayloads(inv.entries);
    FramesConcat([VERSION], middle);
    FramesConcat([VERSION] + middle, [inv.settings]);
  }

  lemma {:induction false} InventoryFramable(inv: Inventory)
    ensures FramableInventory(inv) <==>
            Framable(VERSION) && AllFramable(AllEntryPayloads(inv.entries)) && Framable(inv.settings)
  {
    var first, last := [VERSION], [inv.settings];
    assert first[0] == VERSION && last[0] == inv.settings;
    FramableConcat([VERSION], AllEntryPayloads(inv.entries));
    FramableConcat([VERSION] + AllEntryPayloads(inv.entries), [inv.settings]);
  }

  lemma {:induction false} FramesConcat(a: seq<Bytes>, b: seq<Bytes>)
    ensures Frames(a + b) == Frames(a) + Frames(b)
    decreases |a|
  {
    if a == [] {
      assert a + b == b;
    } else {
      assert (a + b)[0] == a[0] && (a + b)[1..] == a[1..] + b;
      FramesConcat(a[1..], b);
    }
  }

  lemma {:induction false} EntryFeeds(start: Bytes, entry: Entry)
    ensures entry.Present? ==>
              start + Frame(entry.path) + Frame(PRESENT) + Frame(entry.content) == start + Frames(EntryPayloads(entry))
    ensures entry.Missing? ==> start + Frame(entry.path) + Frame(MISSING) == start + Frames(EntryPayloads(entry))
  {
    if entry.Present? {
      FramesOfThree(entry.path, PRESENT, entry.content);
      Regroup(start, Frame(entry.path), Frame(PRESENT), Frame(entry.content));
    } else {
      FramesOfTwo(entry.path, MISSING);
      Regroup(start, Frame(entry.path), Frame(MISSING), []);
    }
  }

  lemma {:induction false} FramesOfThree(a: Bytes, b: Bytes, c: Bytes)
    ensures Frames([a, b, c]) == Frame(a) + Frame(b) + Frame(c)
  {
    FramesOfTwo(a, b);
    FramesConcat([a, b], [c]);
    assert [a, b] + [c] == [a, b, c];
  }

  lemma {:induction false} FramesOfTwo(a: Bytes, b: Bytes)
    ensures Frames([a, b]) == Frame(a) + Frame(b)
  {
    FramesConcat([a], [b]);
    assert [a] + [b] == [a, b];
  }

  lemma {:induction false} EntryFramable(entry: Entry)
    ensures AllFramable(EntryPayloads(entry)) <==>
            && Framable(entry.path) && Framable(if entry.Present? then PRESENT else MISSING)
            && (entry.Present? ==> Framable(entry.content))
  {
    var own := EntryPayloads(entry);
    assert own[0] == entry.path;
    assert own[1] == if entry.Present? then PRESENT else MISSING;
    assert entry.Present? ==> own[2] == entry.content;
  }

  lemma {:induction false} EntriesAppend(entries: seq<Entry>, i: nat)
    requires i < |entries|
    ensures AllEntryPayloads(entries[..i + 1]) == AllEntryPayloads(entries[..i]) + EntryPayloads(entries[i])
  {
    EntriesConcat(entries[..i], [entries[i]]);
    assert entries[..i + 1] == entries[..i] + [entries[i]];
    assert AllEntryPayloads([entries[i]]) == EntryPayloads(entries[i]) + AllEntryPayloads([]);
  }

  lemma {:induction false} EntryFrames(start: Bytes, entries: seq<Entry>, i: nat)
    requires i < |entries|
    ensures start + Frames(AllEntryPayloads(entries[..i])) + Frames(EntryPayloads(entries[i])) ==
            start + Frames(AllEntryPayloads(entries[..i + 1]))
    ensures AllFramable(AllEntryPayloads(entries[..i + 1])) <==>
            AllFramable(AllEntryPayloads(entries[..i])) && AllFramable(EntryPayloads(entries[i]))
  {
    var before, own := AllEntryPayloads(entries[..i]), EntryPayloads(entries[i]);
    EntriesAppend(entries, i);
    FramesConcat(before, own);
    FramableConcat(before, own);
  }

  lemma {:induction false} FramableConcat(a: seq<Bytes>, b: seq<Bytes>)
    ensures AllFramable(a + b) <==> AllFramable(a) && AllFramable(b)
  {
    assert forall i :: 0 <= i < |a| ==> a[i] == (a + b)[i];
    assert forall i :: 0 <= i < |b| ==> b[i] == (a + b)[|a| + i];
  }

  lemma {:induction false} EntriesConcat(a: seq<Entry>, b: seq<Entry>)
    ensures AllEntryPayloads(a + b) == AllEntryPayloads(a) + AllEntryPayloads(b)
    decreases |a|
  {
    if a == [] {
      assert a + b == b;
    } else {
      assert (a + b)[0] == a[0] && (a + b)[1..] == a[1..] + b;
      EntriesConcat(a[1..], b);
    }
  }

  lemma {:induction false} EntryTooLong(entries: seq<Entry>, i: nat)
    requires i < |entries| && !AllFramable(EntryPayloads(entries[i]))
    ensures !AllFramable(AllEntryPayloads(entries))
  {
    EntriesConcat(entries[..i + 1], entries[i + 1..]);
    assert entries == entries[..i + 1] + entries[i + 1..];
    EntriesAppend(entries, i);
    FramableConcat(AllEntryPayloads(entries[..i]), EntryPayloads(entries[i]));
    FramableConcat(AllEntryPayloads(entries[..i + 1]), AllEntryPayloads(entries[i + 1..]));
  }
}
