/** Journal entries: what a set of disjoint byte patches means for memory. */
module PatchEntries {
  import opened Words
  import opened Memory

  datatype Entry = Entry(identifier: string, address: Word, original: seq<byte>, replacement: seq<byte>)

  predicate EntryOk(e: Entry, moduleBase: Word, moduleSize: Word) {
    && e.identifier != ""
    && e.original != []
    && |e.original| == |e.replacement|
    && e.original != e.replacement
    && Contains(moduleBase, moduleSize, e.address, |e.original|)
  }

  predicate Separate(d: Entry, e: Entry) {
    && d.identifier != e.identifier
    && !RangesOverlap(d.address, |d.original|, e.address, |e.original|)
  }

  /** Non-empty changes inside the module, uniquely named and pairwise disjoint. */
  ghost predicate WellFormed(entries: seq<Entry>, moduleBase: Word, moduleSize: Word) {
    && (forall i | 0 <= i < |entries| :: EntryOk(entries[i], moduleBase, moduleSize))
    && (forall i, j | 0 <= i < j < |entries| :: Separate(entries[j], entries[i]))
  }

  predicate InEntry(k: int, e: Entry) {
    InRange(k, e.address, |e.original|)
  }

  /** Address `k` belongs to one of the first `n` entries. */
  predicate Covered(k: int, entries: seq<Entry>, n: nat)
    requires n <= |entries|
  {
    exists i | 0 <= i < n :: InEntry(k, entries[i])
  }

  /** `after` differs from `before` at most inside the ranges of the first `n` entries. */
  ghost predicate UnchangedOutside(before: Contents, after: Contents, entries: seq<Entry>, n: nat)
    requires n <= |entries|
  {
    && after.Keys == before.Keys
    && forall k | k in before && !Covered(k, entries, n) :: after[k] == before[k]
  }

  /** Entries `from` to `to - 1` show their original bytes. */
  ghost predicate ShowOriginals(bytes: Contents, entries: seq<Entry>, from: nat, to: nat)
    requires to <= |entries|
  {
    forall i | from <= i < to :: Present(bytes, entries[i].address, entries[i].original)
  }

  /** Entries `from` to `to - 1` show their replacement bytes. */
  ghost predicate ShowReplacements(bytes: Contents, entries: seq<Entry>, from: nat, to: nat)
    requires to <= |entries|
  {
    forall i | from <= i < to :: Present(bytes, entries[i].address, entries[i].replacement)
  }

  ghost predicate AllOriginal(bytes: Contents, entries: seq<Entry>) {
    ShowOriginals(bytes, entries, 0, |entries|)
  }

  ghost predicate AllReplaced(bytes: Contents, entries: seq<Entry>) {
    ShowReplacements(bytes, entries, 0, |entries|)
  }

  /** `bytes` with every entry's replacement stored over it, first entry first. */
  function Overlaid(bytes: Contents, entries: seq<Entry>): Contents {
    if entries == [] then bytes
    else
      var n := |entries| - 1;
      Overlay(Overlaid(bytes, entries[..n]), entries[n].address, entries[n].replacement)
  }

  lemma DisjointEntries(entries: seq<Entry>, moduleBase: Word, moduleSize: Word, i: nat, j: nat, k: int)
    requires WellFormed(entries, moduleBase, moduleSize)
    requires i < |entries| && j < |entries| && i != j
    requires InEntry(k, entries[j])
    ensures !InEntry(k, entries[i])
  {
    hide RangesOverlap;
    var d, e := entries[i], entries[j];
    assert EntryOk(d, moduleBase, moduleSize) && EntryOk(e, moduleBase, moduleSize);
    if i < j {
      assert Separate(e, d);
      OverlapIsSharedAddress(e.address, |e.original|, d.address, |d.original|);
    } else {
      assert Separate(d, e);
      OverlapIsSharedAddress(d.address, |d.original|, e.address, |e.original|);
    }
  }

  /** Writing inside one entry leaves every other entry's bytes as they were. */
  lemma OtherEntryKept(entries: seq<Entry>, moduleBase: Word, moduleSize: Word, before: Contents, after: Contents,
                       i: nat, j: nat, data: seq<byte>)
    requires WellFormed(entries, moduleBase, moduleSize)
    requires i < |entries| && j < |entries| && i != j
    requires UnchangedOutsideRange(before, after, entries[i].address, |entries[i].original|)
    requires |data| == |entries[j].original| && Present(before, entries[j].address, data)
    ensures Present(after, entries[j].address, data)
  {
    forall k | entries[j].address <= k < entries[j].address + |data|
      ensures k in after && after[k] == data[k - entries[j].address]
    {
      DisjointEntries(entries, moduleBase, moduleSize, i, j, k);
    }
  }

  lemma ReplacementsKept(entries: seq<Entry>, moduleBase: Word, moduleSize: Word, before: Contents, after: Contents, i: nat, from: nat, to: nat)
    requires WellFormed(entries, moduleBase, moduleSize) && i < |entries| && to <= |entries| && !(from <= i < to)
    requires UnchangedOutsideRange(before, after, entries[i].address, |entries[i].original|)
    requires ShowReplacements(before, entries, from, to)
    ensures ShowReplacements(after, entries, from, to)
  {
    forall j | from <= j < to
      ensures Present(after, entries[j].address, entries[j].replacement)
    {
      OtherEntryKept(entries, moduleBase, moduleSize, before, after, i, j, entries[j].replacement);
    }
  }

  lemma OriginalsKept(entries: seq<Entry>, moduleBase: Word, moduleSize: Word, before: Contents, after: Contents, i: nat, from: nat, to: nat)
    requires WellFormed(entries, moduleBase, moduleSize) && i < |entries| && to <= |entries| && !(from <= i < to)
    requires UnchangedOutsideRange(before, after, entries[i].address, |entries[i].original|)
    requires ShowOriginals(before, entries, from, to)
    ensures ShowOriginals(after, entries, from, to)
  {
    forall j | from <= j < to
      ensures Present(after, entries[j].address, entries[j].original)
    {
      OtherEntryKept(entries, moduleBase, moduleSize, before, after, i, j, entries[j].original);
    }
  }

  /** A write inside entry `i` stays outside everything the first `n > i` entries do not cover. */
  lemma StillOutside(entries: seq<Entry>, base: Contents, before: Contents, after: Contents, i: nat, n: nat)
    requires i < n <= |entries|
    requires UnchangedOutside(base, before, entries, n)
    requires UnchangedOutsideRange(before, after, entries[i].address, |entries[i].original|)
    ensures UnchangedOutside(base, after, entries, n)
  {
    forall k | k in base && !Covered(k, entries, n)
      ensures after[k] == base[k]
    {
      assert !InEntry(k, entries[i]);
    }
  }

  lemma WiderOutside(base: Contents, bytes: Contents, entries: seq<Entry>, n: nat, m: nat)
    requires n <= m <= |entries| && UnchangedOutside(base, bytes, entries, n)
    ensures UnchangedOutside(base, bytes, entries, m)
  {
    forall k | k in base && !Covered(k, entries, m)
      ensures bytes[k] == base[k]
    {
      assert forall i | 0 <= i < n :: !InEntry(k, entries[i]);
    }
  }

  /** With the originals back in every entry that was touched, memory is byte for byte what it was. */
  lemma OriginalsRestore(entries: seq<Entry>, base: Contents, bytes: Contents, n: nat)
    requires n <= |entries|
    requires ShowOriginals(base, entries, 0, n)
    requires UnchangedOutside(base, bytes, entries, n)
    requires ShowOriginals(bytes, entries, 0, n)
    ensures bytes == base
  {
    forall k | k in base
      ensures bytes[k] == base[k]
    {
      if Covered(k, entries, n) {
        var i :| 0 <= i < n && InEntry(k, entries[i]);
        assert Present(base, entries[i].address, entries[i].original);
        assert Present(bytes, entries[i].address, entries[i].original);
      }
    }
  }

  /** Likewise when what was there before, and is back, is every replacement. */
  lemma ReplacementsRestore(entries: seq<Entry>, base: Contents, bytes: Contents)
    requires forall i | 0 <= i < |entries| :: |entries[i].original| == |entries[i].replacement|
    requires AllReplaced(base, entries)
    requires UnchangedOutside(base, bytes, entries, |entries|)
    requires AllReplaced(bytes, entries)
    ensures bytes == base
  {
    forall k | k in base
      ensures bytes[k] == base[k]
    {
      if Covered(k, entries, |entries|) {
        var i :| 0 <= i < |entries| && InEntry(k, entries[i]);
        assert Present(base, entries[i].address, entries[i].replacement);
        assert Present(bytes, entries[i].address, entries[i].replacement);
      }
    }
  }

  lemma {:induction false} OverlaidOutside(base: Contents, entries: seq<Entry>)
    requires forall i | 0 <= i < |entries| :: |entries[i].original| == |entries[i].replacement|
    ensures UnchangedOutside(base, Overlaid(base, entries), entries, |entries|)
  {
    if entries != [] {
      var n := |entries| - 1;
      OverlaidOutside(base, entries[..n]);
      forall k | k in base && !Covered(k, entries, |entries|)
        ensures Overlaid(base, entries)[k] == base[k]
      {
        assert !InEntry(k, entries[n]);
        assert forall i | 0 <= i < n :: !InEntry(k, entries[..n][i]);
      }
    }
  }

  lemma {:induction false} OverlaidHasReplacements(base: Contents, entries: seq<Entry>, moduleBase: Word, moduleSize: Word)
    requires WellFormed(entries, moduleBase, moduleSize)
    requires forall i | 0 <= i < |entries| :: Mapped(base, entries[i].address, |entries[i].original|)
    ensures AllReplaced(Overlaid(base, entries), entries)
  {
    if entries != [] {
      var n := |entries| - 1;
      var prior, last := entries[..n], entries[n];
      assert WellFormed(prior, moduleBase, moduleSize);
      OverlaidOutside(base, prior);
      OverlaidHasReplacements(base, prior, moduleBase, moduleSize);
      var before, after := Overlaid(base, prior), Overlaid(base, entries);
      assert after == Overlay(before, last.address, last.replacement);
      assert Present(after, last.address, last.replacement) by {
        assert Mapped(base, last.address, |last.original|);
      }
      assert ShowReplacements(before, entries, 0, n) by {
        assert forall i | 0 <= i < n :: entries[i] == prior[i];
      }
      ReplacementsKept(entries, moduleBase, moduleSize, before, after, n, 0, n);
    }
  }

  /** The overlay is the only memory that shows every replacement and is unchanged elsewhere. */
  lemma OverlaidIsUnique(entries: seq<Entry>, base: Contents, bytes: Contents, moduleBase: Word, moduleSize: Word)
    requires WellFormed(entries, moduleBase, moduleSize)
    requires UnchangedOutside(base, bytes, entries, |entries|)
    requires AllReplaced(bytes, entries)
    ensures bytes == Overlaid(base, entries)
  {
    forall i | 0 <= i < |entries|
      ensures Mapped(base, entries[i].address, |entries[i].original|)
    {
      assert Present(bytes, entries[i].address, entries[i].replacement);
    }
    OverlaidOutside(base, entries);
    OverlaidHasReplacements(base, entries, moduleBase, moduleSize);
    var overlaid := Overlaid(base, entries);
    forall k | k in base
      ensures bytes[k] == overlaid[k]
    {
      if Covered(k, entries, |entries|) {
        var i :| 0 <= i < |entries| && InEntry(k, entries[i]);
        assert Present(bytes, entries[i].address, entries[i].replacement);
        assert Present(overlaid, entries[i].address, entries[i].replacement);
      }
    }
  }

  // ---- What the writer is asked to do ----

  /** Accepted writes of the first `n` replacements, in order. */
  function Forward(entries: seq<Entry>, n: nat): (log: seq<WriteCall>)
    requires n <= |entries|
    ensures |log| == n
  {
    seq(n, i requires 0 <= i < n => WriteCall(entries[i].address, entries[i].replacement, true))
  }

  /** Accepted writes of originals `from - 1` down to `to`. */
  function Backward(entries: seq<Entry>, from: nat, to: nat): (log: seq<WriteCall>)
    requires to <= from <= |entries|
    ensures |log| == from - to
  {
    seq(from - to, i requires 0 <= i < from - to =>
      WriteCall(entries[from - 1 - i].address, entries[from - 1 - i].original, true))
  }

  /** Accepted writes of replacements `from - 1` down to `to`: how a failed rollback re-applies. */
  function Reapply(entries: seq<Entry>, from: nat, to: nat): (log: seq<WriteCall>)
    requires to <= from <= |entries|
    ensures |log| == from - to
  {
    seq(from - to, i requires 0 <= i < from - to =>
      WriteCall(entries[from - 1 - i].address, entries[from - 1 - i].replacement, true))
  }
}
