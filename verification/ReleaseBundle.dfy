/** Bundling a release directory in place, and verifying a retained one. */
module ReleaseBundle {
  import opened Options
  import opened SortedNames
  import opened Checksums
  import opened Release

  // ----- specification of bundling -----

  predicate IsCommit(s: string) {
    |s| == 40 && forall i :: 0 <= i < |s| ==> IsHex(s[i])
  }

  function MetadataOf(d: Dir, tag: string, commit: string, today: int): Support {
    Support(1, tag, commit, today, today + SUPPORT_DAYS, Sorted(InventoryFiles(d)))
  }

  /** The directory after the metadata was written, unless that raises. */
  function WithSupport(t: Tools, d: Dir, tag: string, commit: string, today: int): Option<Dir> {
    Write(d, SUPPORT, t.render(MetadataOf(d, tag, commit, today)))
  }

  predicate SupportLongEnough(t: Tools, d: Dir, today: int) {
    forall n :: n in InventoryFiles(d) ==>
      var inv := ReadInventory(t, d, n);
      inv.Some? && inv.value.supportEnds.Some? && inv.value.supportEnds.value >= today + SUPPORT_DAYS
  }

  predicate AllRegular(d: Dir) {
    forall n :: n in d && n != SUMS ==> IsSafe(n) && d[n].File?
  }

  function SumFor(t: Tools, d: Dir, name: string): Sum
    requires name in d && d[name].File?
  {
    Sum(t.sha(d[name].text), name)
  }

  /** One line for every file except the checksum file itself, in name order. */
  function SumsOf(t: Tools, d: Dir): seq<Sum>
    requires AllRegular(d)
  {
    var names := Sorted(d.Keys - {SUMS});
    seq(|names|, i requires 0 <= i < |names| => assert names[i] in names; SumFor(t, d, names[i]))
  }

  /** The directory after the checksums were written, unless that raises. */
  function WithSums(t: Tools, d: Dir): Option<Dir>
    requires AllRegular(d)
  {
    Write(d, SUMS, Render(SumsOf(t, d)))
  }

  /** The evidence that bundling demands before it writes anything. */
  ghost predicate EvidenceOk(t: Tools, d: Dir, commit: string, today: int) {
    IsCommit(commit) && InventorySetOk(t, d, commit, false) && t.scanned(d) && SupportLongEnough(t, d, today)
  }

  ghost predicate BundleOk(t: Tools, d: Dir, tag: string, commit: string, today: int) {
    && EvidenceOk(t, d, commit, today)
    && var middle := WithSupport(t, d, tag, commit, today);
    && middle.Some? && AllRegular(middle.value) && WithSums(t, middle.value).Some?
  }

  method CheckEvidence(t: Tools, d: Dir, commit: string, today: int) returns (r: Option<seq<string>>)
    ensures r.Some? == EvidenceOk(t, d, commit, today)
    ensures r.Some? ==> r.value == Sorted(InventoryFiles(d))
  {
    if !IsCommit(commit) { return None; }
    r := InventorySet(t, d, commit, false);
    if !t.scanned(d) || !SupportLongEnough(t, d, today) { return None; }
  }

  ghost function Bundled(t: Tools, d: Dir, tag: string, commit: string, today: int): Dir
    requires BundleOk(t, d, tag, commit, today)
  {
    WithSums(t, WithSupport(t, d, tag, commit, today).value).value
  }

  /** The checksum lines in name order, or failure at a name that is unsafe or not a regular file. */
  method ListSums(t: Tools, d: Dir) returns (r: Option<seq<Sum>>)
    ensures r.Some? <==> AllRegular(d)
    ensures r.Some? ==> r.value == SumsOf(t, d)
  {
    var names := Sorted(d.Keys - {SUMS});
    var sums := [];
    for i := 0 to |names|
      invariant |sums| == i
      invariant forall j :: 0 <= j < i ==>
                names[j] in d && d[names[j]].File? && IsSafe(names[j]) && sums[j] == SumFor(t, d, names[j])
    {
      assert names[i] in names;
      if !IsSafe(names[i]) || !d[names[i]].File? { return None; }
      sums := sums + [SumFor(t, d, names[i])];
    }
    forall n | n in d && n != SUMS ensures IsSafe(n) && d[n].File? {
      assert n in names;
      var j :| 0 <= j < |names| && names[j] == n;
    }
    r := Some(sums);
  }

  class Directory {
    var entries: Dir

    constructor (entries: Dir)
      ensures this.entries == entries
    {
      this.entries := entries;
    }

    /**
     Check the evidence, then write the metadata and the checksums; a bad file name shows only after
     the metadata is written.
     */
    method Bundle(t: Tools, tag: string, commit: string, today: int) returns (ok: bool)
      modifies this
      ensures ok == BundleOk(t, old(entries), tag, commit, today)
      ensures ok ==> entries == Bundled(t, old(entries), tag, commit, today)
      ensures !ok ==> entries == old(entries) || Some(entries) == WithSupport(t, old(entries), tag, commit, today)
    {
      var inventories := CheckEvidence(t, entries, commit, today);
      if inventories.None? { return false; }
      var metadata := Support(1, tag, commit, today, today + SUPPORT_DAYS, inventories.value);
      var described := Write(entries, SUPPORT, t.render(metadata));
      if described.None? { return false; }
      entries := described.value;
      var sums := ListSums(t, entries);
      if sums.None? { return false; }
      var summed := Write(entries, SUMS, Render(sums.value));
      if summed.None? { return false; }
      entries := summed.value;
      ok := true;
    }
  }

  // ----- verification -----

  /** The checksum lines cover every other file exactly once, with its digest. */
  ghost predicate Covers(t: Tools, d: Dir, sums: seq<Sum>) {
    && (forall i :: 0 <= i < |sums| ==>
          IsSafe(sums[i].name) && sums[i].name != SUMS && Digest(t, d, sums[i].name) == Some(sums[i].digest))
    && (forall i, j :: 0 <= i < j < |sums| ==> sums[i].name != sums[j].name)
    && (forall n :: n in d && n != SUMS ==> exists i :: 0 <= i < |sums| && sums[i].name == n)
  }

  predicate MetadataOk(m: Support, tag: string, today: int) {
    m.schema == 1 && m.tag == tag && m.ends - m.starts == SUPPORT_DAYS && m.starts <= today <= m.ends
  }

  ghost predicate Accepts(t: Tools, d: Dir, tag: string, today: int) {
    && Read(d, SUMS).Some?
    && var sums := Parse(Read(d, SUMS).value);
    && sums.Some? && Covers(t, d, sums.value)
    && Read(d, SUPPORT).Some?
    && var m := t.parse(Read(d, SUPPORT).value);
    && m.Some? && MetadataOk(m.value, tag, today)
    && InventorySetOk(t, d, m.value.commit, true)
    && m.value.inventories == Sorted(InventoryFiles(d))
  }

  /** The checksum file: every line names another file once, with its digest, and none is missing. */
  method CheckSums(t: Tools, d: Dir, sums: seq<Sum>) returns (ok: bool)
    ensures ok <==> Covers(t, d, sums)
  {
    var entries: set<string> := {};
    for k := 0 to |sums|
      invariant forall n :: n in entries <==> exists i :: 0 <= i < k && sums[i].name == n
      invariant forall i :: 0 <= i < k ==>
                  IsSafe(sums[i].name) && sums[i].name != SUMS && Digest(t, d, sums[i].name) == Some(sums[i].digest)
      invariant forall i, j :: 0 <= i < j < k ==> sums[i].name != sums[j].name
    {
      var s := sums[k];
      if !IsSafe(s.name) || s.name == SUMS || Digest(t, d, s.name) != Some(s.digest) { return false; }
      if s.name in entries {
        var i :| 0 <= i < k && sums[i].name == s.name;
        return false;
      }
      entries := entries + {s.name};
    }
    NamesCovered(t, d, sums, entries);
    ok := entries == d.Keys - {SUMS};
  }

  lemma NamesCovered(t: Tools, d: Dir, sums: seq<Sum>, entries: set<string>)
    requires forall n :: n in entries <==> exists i :: 0 <= i < |sums| && sums[i].name == n
    requires forall i :: 0 <= i < |sums| ==> sums[i].name != SUMS && Digest(t, d, sums[i].name) == Some(sums[i].digest)
    ensures entries == d.Keys - {SUMS} <==>
            forall n :: n in d && n != SUMS ==> exists i :: 0 <= i < |sums| && sums[i].name == n
  {
    forall n | n in entries ensures n in d.Keys - {SUMS} {
      var i :| 0 <= i < |sums| && sums[i].name == n;
      assert Digest(t, d, sums[i].name).Some?;
    }
    if entries == d.Keys - {SUMS} {
      forall n | n in d && n != SUMS ensures exists i :: 0 <= i < |sums| && sums[i].name == n { assert n in entries; }
    }
  }

  /** Check coverage, the support window and the inventories; the result lists the inventories. */
  method VerifyRelease(t: Tools, d: Dir, tag: string, today: int) returns (r: Option<seq<string>>)
    ensures r.Some? <==> Accepts(t, d, tag, today)
    ensures r.Some? ==> r.value == Sorted(InventoryFiles(d)) && (|r.value| == 6 || |r.value| == 8)
  {
    if Read(d, SUMS).None? { return None; }
    var sums := Parse(Read(d, SUMS).value);
    if sums.None? { return None; }
    var covered := CheckSums(t, d, sums.value);
    if !covered || Read(d, SUPPORT).None? { return None; }
    var m := t.parse(Read(d, SUPPORT).value);
    if m.None? || !MetadataOk(m.value, tag, today) { return None; }
    var names := InventorySet(t, d, m.value.commit, true);
    if names.None? || m.value.inventories != names.value { return None; }
    SixOrEight(t, d, m.value.commit, true);
    r := names;
  }
}
