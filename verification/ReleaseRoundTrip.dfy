/** When a bundled release verifies: exactly the days, and the two families of directories for which it does not. */
module ReleaseRoundTrip {
  import opened Options
  import opened SortedNames
  import opened Checksums
  import opened Release
  import opened ReleaseBundle

  lemma ReservedNames()
    ensures SUPPORT != SUMS && !EndsWith(SUPPORT, INVENTORY) && !EndsWith(SUMS, INVENTORY)
    ensures forall inv: Inventory :: GateName(inv) != SUPPORT && GateName(inv) != SUMS
  {
    var support, sums, inventory, gate := SUPPORT, SUMS, INVENTORY, ".gate.json";
    assert |support| == 21 && |sums| == 10 && |inventory| == 15 && |gate| == 10;
    assert support[15] == 't' && inventory[9] == 'y' && support[6..][9] == support[15];
    assert gate[4] == 'e' && gate[9] == 'n' && sums[9] == 'S';
    forall inv: Inventory ensures GateName(inv) != SUPPORT && GateName(inv) != SUMS {
      var g := GateName(inv);
      assert g == inv.artifact + "-" + inv.architecture + gate;
      assert g[|g| - 6] == gate[4] && g[|g| - 1] == gate[9];
    }
  }

  // ----- what bundling leaves alone -----

  /** An inventory that lists one of the two rewritten files lists the digest of what bundling writes there. */
  predicate ListsWritten(t: Tools, d: Dir, after: Dir, n: string) {
    var inv := ReadInventory(t, d, n);
    inv.Some? ==>
      forall f :: f in inv.value.files && (f == SUPPORT || f == SUMS) ==>
        Digest(t, after, f) == Some(inv.value.files[f])
  }

  predicate ListsWhatIsWritten(t: Tools, d: Dir, after: Dir) {
    forall n :: n in InventoryFiles(d) ==> ListsWritten(t, d, after, n)
  }

  /** Only the two written names differ, and every other entry is a file. */
  ghost predicate SameElsewhere(d: Dir, after: Dir) {
    && after.Keys == d.Keys + {SUPPORT, SUMS}
    && forall n :: n in d && n != SUPPORT && n != SUMS ==> d[n].File? && after[n] == d[n]
  }

  lemma SameInventories(d: Dir, after: Dir)
    requires SameElsewhere(d, after)
    ensures InventoryFiles(after) == InventoryFiles(d)
  {
    ReservedNames();
  }

  lemma SameRead(d: Dir, after: Dir, n: string)
    requires SameElsewhere(d, after) && n != SUPPORT && n != SUMS
    ensures Read(after, n) == Read(d, n)
  {
  }

  /** An inventory that checked before still checks exactly when it lists what was written. */
  lemma CheckedAfter(t: Tools, d: Dir, after: Dir, n: string, commit: string)
    requires SameElsewhere(d, after) && n in InventoryFiles(d) && InventoryOk(t, d, n, commit, EXPECTED)
    ensures ReadInventory(t, after, n) == ReadInventory(t, d, n)
    ensures InventoryOk(t, after, n, commit, Allowed(true)) <==> ListsWritten(t, d, after, n)
    ensures ListsWritten(t, d, after, n) ==>
            Checked(t, after, n, commit, Allowed(true)) == Checked(t, d, n, commit, EXPECTED)
  {
    ReservedNames();
    SameRead(d, after, n);
    var inv := ReadInventory(t, d, n).value;
    forall f | f in inv.files && f != SUPPORT && f != SUMS ensures Digest(t, after, f) == Digest(t, d, f) {
      assert Digest(t, d, f).Some?;
    }
    SameRead(d, after, GateName(inv));
  }

  /** Every inventory of an accepted set checks. */
  lemma AllChecked(t: Tools, d: Dir, commit: string, retained: bool, n: string)
    requires InventorySetOk(t, d, commit, retained) && n in InventoryFiles(d)
    ensures InventoryOk(t, d, n, commit, Allowed(retained))
  {
    var names := Sorted(InventoryFiles(d));
    var keys := CheckedAll(t, d, names, commit, Allowed(retained));
    var found :| FoundIs(keys, found) && Complete(found);
    var i :| 0 <= i < |names| && names[i] == n;
    assert keys[i].Some? && keys[i] == Checked(t, d, n, commit, Allowed(retained));
  }

  lemma SameChecks(t: Tools, d: Dir, after: Dir, commit: string)
    requires SameElsewhere(d, after) && InventorySetOk(t, d, commit, false) && ListsWhatIsWritten(t, d, after)
    ensures InventorySetOk(t, after, commit, true)
  {
    SameInventories(d, after);
    var names := Sorted(InventoryFiles(d));
    var before, later := CheckedAll(t, d, names, commit, EXPECTED), CheckedAll(t, after, names, commit, Allowed(true));
    forall i | 0 <= i < |names| ensures later[i] == before[i] {
      assert names[i] in names;
      AllChecked(t, d, commit, false, names[i]);
      CheckedAfter(t, d, after, names[i], commit);
    }
    assert later == before;
  }

  lemma InventoriesAfter(t: Tools, d: Dir, after: Dir, commit: string)
    requires SameElsewhere(d, after) && InventorySetOk(t, d, commit, false)
    ensures InventorySetOk(t, after, commit, true) <==> ListsWhatIsWritten(t, d, after)
  {
    SameInventories(d, after);
    if ListsWhatIsWritten(t, d, after) { SameChecks(t, d, after, commit); }
    if InventorySetOk(t, after, commit, true) {
      forall n | n in InventoryFiles(d) ensures ListsWritten(t, d, after, n) {
        AllChecked(t, d, commit, false, n);
        AllChecked(t, after, commit, true, n);
        CheckedAfter(t, d, after, n, commit);
      }
    }
  }

  // ----- the checksum file -----

  lemma SumsNamed(t: Tools, d: Dir)
    requires AllRegular(d)
    ensures forall i :: 0 <= i < |SumsOf(t, d)| ==>
              var s := SumsOf(t, d)[i];
              s.name in d && s.name != SUMS && IsSafe(s.name) && d[s.name].File? && s.digest == t.sha(d[s.name].text)
    ensures forall n :: n in d && n != SUMS ==> exists i :: 0 <= i < |SumsOf(t, d)| && SumsOf(t, d)[i].name == n
    ensures forall i, j :: 0 <= i < j < |SumsOf(t, d)| ==> SumsOf(t, d)[i].name != SumsOf(t, d)[j].name
  {
    var names, sums := Sorted(d.Keys - {SUMS}), SumsOf(t, d);
    forall i | 0 <= i < |sums| ensures sums[i].name == names[i] && names[i] in d && names[i] != SUMS {
      assert names[i] in names;
    }
    forall n | n in d && n != SUMS ensures exists i :: 0 <= i < |sums| && sums[i].name == n {
      assert n in names;
      var i :| 0 <= i < |names| && names[i] == n;
      assert sums[i].name == n;
    }
  }

  lemma SumsRead(t: Tools, d: Dir)
    requires Hexadecimal(t) && AllRegular(d)
    ensures Parse(Render(SumsOf(t, d))) == Some(SumsOf(t, d))
  {
    SumsNamed(t, d);
    ParseRendered(SumsOf(t, d));
  }

  /** The lines cover a directory that differs only at the checksum file. */
  lemma SumsCover(t: Tools, d: Dir, after: Dir)
    requires AllRegular(d) && after.Keys == d.Keys + {SUMS} && forall n :: n in d && n != SUMS ==> after[n] == d[n]
    ensures Covers(t, after, SumsOf(t, d))
  {
    SumsNamed(t, d);
  }

  /** They cover nothing else: no entry may be new, and every digest must be the one that was taken. */
  lemma CoversOnly(t: Tools, d: Dir, after: Dir, m: string)
    requires AllRegular(d) && Covers(t, after, SumsOf(t, d)) && m in after && m != SUMS && after[m].File?
    ensures m in d && t.sha(after[m].text) == t.sha(d[m].text)
  {
    SumsNamed(t, d);
    var i :| 0 <= i < |SumsOf(t, d)| && SumsOf(t, d)[i].name == m;
    assert Digest(t, after, m) == Some(SumsOf(t, d)[i].digest);
  }

  /** The entry that writing the checksums overwrites, when the checksum file links to another entry. */
  function LinkedAsset(d: Dir): Option<string> {
    if SUMS in d && d[SUMS].Link? && d[SUMS].target.Inside? then Some(d[SUMS].target.name) else None
  }

  /** No other asset is overwritten by the checksums, except by its own text. */
  predicate SumsApart(t: Tools, d: Dir)
    requires AllRegular(d)
  {
    var m := LinkedAsset(d);
    m.Some? ==> m.value in d && d[m.value] == File(Render(SumsOf(t, d)))
  }

  /** The text of the checksums does not collide with that of an asset. */
  predicate NoCollision(t: Tools, d: Dir)
    requires AllRegular(d)
  {
    forall m :: m in d && d[m].File? && t.sha(d[m].text) == t.sha(Render(SumsOf(t, d))) ==>
      d[m].text == Render(SumsOf(t, d))
  }

  lemma WrittenApart(t: Tools, d: Dir, after: Dir)
    requires AllRegular(d) && WithSums(t, d) == Some(after) && SumsApart(t, d)
    ensures after.Keys == d.Keys + {SUMS} && (forall n :: n in d && n != SUMS ==> after[n] == d[n])
    ensures Read(after, SUMS) == Some(Render(SumsOf(t, d)))
  {
    if LinkedAsset(d).Some? { assert after == d; }
  }

  /** An overwritten asset no longer has the digest that the lines give for it. */
  lemma OverwrittenFails(t: Tools, d: Dir, after: Dir)
    requires AllRegular(d) && WithSums(t, d) == Some(after) && NoCollision(t, d) && !SumsApart(t, d)
    ensures Read(after, SUMS) == Some(Render(SumsOf(t, d))) && !Covers(t, after, SumsOf(t, d))
  {
    var m := LinkedAsset(d).value;
    assert after == d[m := File(Render(SumsOf(t, d)))];
    assert m != SUMS;
    if Covers(t, after, SumsOf(t, d)) { CoversOnly(t, d, after, m); }
  }

  // ----- bundle, then verify -----

  function Middle(t: Tools, d: Dir, tag: string, commit: string, today: int): Dir
    requires WithSupport(t, d, tag, commit, today).Some?
  {
    WithSupport(t, d, tag, commit, today).value
  }

  /** A name that is a file after a write was written itself, not through a link. */
  lemma WrittenFile(d: Dir, name: string, text: string, after: Dir)
    requires Write(d, name, text) == Some(after) && name in after && after[name].File?
    ensures after == d[name := File(text)]
  {
  }

  lemma Apart()
    ensures SUPPORT != SUMS
  {
    assert |"security-support.json"| == 21 && |"SHA256SUMS"| == 10;
  }

  /** Listing succeeds only where the metadata was written to a file of its own. */
  lemma SupportIsFile(d: Dir, text: string, middle: Dir)
    requires Write(d, SUPPORT, text) == Some(middle) && AllRegular(middle)
    ensures middle == d[SUPPORT := File(text)] && LinkedAsset(middle) == LinkedAsset(d)
    ensures forall n :: n in d && n != SUPPORT && n != SUMS ==> d[n].File?
  {
    Apart();
    StillThere(d, SUPPORT, text, middle);
    WrittenFile(d, SUPPORT, text, middle);
    forall n | n in d && n != SUPPORT && n != SUMS ensures d[n].File? { assert n in middle && middle[n] == d[n]; }
  }

  lemma StillThere(d: Dir, name: string, text: string, after: Dir)
    requires Write(d, name, text) == Some(after)
    ensures name in after
  {
  }

  /** With covering checksums and readable metadata, what is left to check. */
  lemma AcceptsWhen(t: Tools, d: Dir, tag: string, day: int, sums: seq<Sum>, m: Support)
    requires Read(d, SUMS) == Some(Render(sums)) && Parse(Render(sums)) == Some(sums) && Covers(t, d, sums)
    requires Read(d, SUPPORT) == Some(t.render(m)) && t.parse(t.render(m)) == Some(m)
    ensures Accepts(t, d, tag, day) <==>
            MetadataOk(m, tag, day) && InventorySetOk(t, d, m.commit, true) &&
              m.inventories == Sorted(InventoryFiles(d))
  {
  }

  /** The metadata that bundling writes parses back. */
  predicate Parses(t: Tools, d: Dir, tag: string, commit: string, today: int) {
    t.parse(t.render(MetadataOf(d, tag, commit, today))) == Some(MetadataOf(d, tag, commit, today))
  }

  /** What the written files leave to check: the window, and what the inventories list. */
  lemma AcceptedAfter(t: Tools, d: Dir, after: Dir, sums: seq<Sum>, m: Support, tag: string, day: int)
    requires SameElsewhere(d, after) && InventorySetOk(t, d, m.commit, false) &&
             m.inventories == Sorted(InventoryFiles(d))
    requires Read(after, SUMS) == Some(Render(sums)) && Parse(Render(sums)) == Some(sums) && Covers(t, after, sums)
    requires Read(after, SUPPORT) == Some(t.render(m)) && t.parse(t.render(m)) == Some(m)
    ensures Accepts(t, after, tag, day) == (MetadataOk(m, tag, day) && ListsWhatIsWritten(t, d, after))
  {
    SameInventories(d, after);
    InventoriesAfter(t, d, after, m.commit);
    AcceptsWhen(t, after, tag, day, sums, m);
  }

  /** Where no asset is overwritten, only the two written names differ. */
  lemma BundledShape(t: Tools, d: Dir, text: string, middle: Dir, after: Dir)
    requires Write(d, SUPPORT, text) == Some(middle) && AllRegular(middle)
    requires WithSums(t, middle) == Some(after) && SumsApart(t, middle)
    ensures SameElsewhere(d, after) && SUPPORT in after && after[SUPPORT] == File(text)
    ensures Covers(t, after, SumsOf(t, middle)) && Read(after, SUMS) == Some(Render(SumsOf(t, middle)))
  {
    Apart();
    SupportIsFile(d, text, middle);
    WrittenApart(t, middle, after);
    SumsCover(t, middle, after);
    OnlyTwoDiffer(d, text, middle, after);
  }

  lemma OnlyTwoDiffer(d: Dir, text: string, middle: Dir, after: Dir)
    requires middle == d[SUPPORT := File(text)] && forall n :: n in d && n != SUPPORT && n != SUMS ==> d[n].File?
    requires after.Keys == middle.Keys + {SUMS} && forall n :: n in middle && n != SUMS ==> after[n] == middle[n]
    ensures SameElsewhere(d, after)
  {
  }

  /** A bundle's metadata, its directory with the metadata, and its directory at the end. */
  ghost predicate Writes(t: Tools, d: Dir, m: Support, middle: Dir, after: Dir) {
    && InventorySetOk(t, d, m.commit, false) && m.inventories == Sorted(InventoryFiles(d))
    && t.parse(t.render(m)) == Some(m)
    && Write(d, SUPPORT, t.render(m)) == Some(middle) && AllRegular(middle) && WithSums(t, middle) == Some(after)
  }

  lemma BundleWrites(t: Tools, d: Dir, tag: string, commit: string, today: int)
    requires BundleOk(t, d, tag, commit, today) && Parses(t, d, tag, commit, today)
    ensures Writes(t, d, MetadataOf(d, tag, commit, today), Middle(t, d, tag, commit, today),
            Bundled(t, d, tag, commit, today))
  {
  }

  lemma ApartCore(t: Tools, d: Dir, middle: Dir, after: Dir, m: Support, tag: string, day: int)
    requires Hexadecimal(t) && Writes(t, d, m, middle, after) && SumsApart(t, middle)
    ensures InventoryFiles(after) == InventoryFiles(d)
    ensures Accepts(t, after, tag, day) == (MetadataOk(m, tag, day) && ListsWhatIsWritten(t, d, after))
  {
    BundledShape(t, d, t.render(m), middle, after);
    SumsRead(t, middle);
    SameInventories(d, after);
    AcceptedAfter(t, d, after, SumsOf(t, middle), m, tag, day);
  }

  lemma WindowOf(d: Dir, tag: string, commit: string, today: int, day: int)
    ensures MetadataOk(MetadataOf(d, tag, commit, today), tag, day) == (today <= day <= today + SUPPORT_DAYS)
  {
  }

  /**
   A bundled release verifies on exactly the days of its support window, with the same inventories,
   exactly when no inventory lists a stale digest of the two files that bundling rewrites and the
   checksum file is not a link to another asset.
   */
  lemma BundleRoundTrip(t: Tools, d: Dir, tag: string, commit: string, today: int, day: int)
    requires Hexadecimal(t) && BundleOk(t, d, tag, commit, today) && Parses(t, d, tag, commit, today)
    requires NoCollision(t, Middle(t, d, tag, commit, today))
    ensures var middle, after := Middle(t, d, tag, commit, today), Bundled(t, d, tag, commit, today);
            && (SumsApart(t, middle) ==> InventoryFiles(after) == InventoryFiles(d))
            && Accepts(t, after, tag, day) ==
               (today <= day <= today + SUPPORT_DAYS && ListsWhatIsWritten(t, d, after) && SumsApart(t, middle))
  {
    var middle, after := Middle(t, d, tag, commit, today), Bundled(t, d, tag, commit, today);
    if SumsApart(t, middle) {
      BundleWrites(t, d, tag, commit, today);
      WindowOf(d, tag, commit, today, day);
      ApartCore(t, d, middle, after, MetadataOf(d, tag, commit, today), tag, day);
    } else {
      OverwrittenRejected(t, middle, after, tag, day);
    }
  }

  lemma OverwrittenRejected(t: Tools, middle: Dir, after: Dir, tag: string, day: int)
    requires Hexadecimal(t) && AllRegular(middle) && WithSums(t, middle) == Some(after)
    requires NoCollision(t, middle) && !SumsApart(t, middle)
    ensures !Accepts(t, after, tag, day)
  {
    OverwrittenFails(t, middle, after);
    SumsRead(t, middle);
  }

  /**
   When no inventory lists the two rewritten files and the checksum file links to no entry, the
   round trip always succeeds.
   */
  lemma UnlistedRoundTrip(t: Tools, d: Dir, tag: string, commit: string, today: int, day: int)
    requires Hexadecimal(t) && BundleOk(t, d, tag, commit, today) && Parses(t, d, tag, commit, today)
    requires today <= day <= today + SUPPORT_DAYS && LinkedAsset(d).None?
    requires forall n :: n in InventoryFiles(d) && ReadInventory(t, d, n).Some? ==>
               SUPPORT !in ReadInventory(t, d, n).value.files && SUMS !in ReadInventory(t, d, n).value.files
    ensures Accepts(t, Bundled(t, d, tag, commit, today), tag, day)
  {
    var middle, after := Middle(t, d, tag, commit, today), Bundled(t, d, tag, commit, today);
    SupportIsFile(d, t.render(MetadataOf(d, tag, commit, today)), middle);
    BundleWrites(t, d, tag, commit, today);
    WindowOf(d, tag, commit, today, day);
    ApartCore(t, d, middle, after, MetadataOf(d, tag, commit, today), tag, day);
    NothingListed(t, d, after);
  }

  lemma NothingListed(t: Tools, d: Dir, after: Dir)
    requires forall n :: n in InventoryFiles(d) && ReadInventory(t, d, n).Some? ==>
               SUPPORT !in ReadInventory(t, d, n).value.files && SUMS !in ReadInventory(t, d, n).value.files
    ensures ListsWhatIsWritten(t, d, after)
  {
  }

  lemma StaleListing(t: Tools, d: Dir, after: Dir, n: string, text: string)
    requires n in InventoryFiles(d) && ReadInventory(t, d, n).Some? && SUPPORT in ReadInventory(t, d, n).value.files
    requires SUPPORT in after && after[SUPPORT] == File(text) &&
             ReadInventory(t, d, n).value.files[SUPPORT] != t.sha(text)
    ensures !ListsWhatIsWritten(t, d, after)
  {
    assert !ListsWritten(t, d, after, n);
  }

  /** An inventory that listed the metadata file before it was rewritten makes the bundled release fail on every day. */
  lemma StaleListingFails(t: Tools, d: Dir, tag: string, commit: string, today: int, day: int, n: string)
    requires Hexadecimal(t) && BundleOk(t, d, tag, commit, today) && Parses(t, d, tag, commit, today)
    requires LinkedAsset(d).None? && n in InventoryFiles(d)
    requires ReadInventory(t, d, n).Some? && SUPPORT in ReadInventory(t, d, n).value.files
    requires ReadInventory(t, d, n).value.files[SUPPORT] != t.sha(t.render(MetadataOf(d, tag, commit, today)))
    ensures !Accepts(t, Bundled(t, d, tag, commit, today), tag, day)
  {
    var middle, after := Middle(t, d, tag, commit, today), Bundled(t, d, tag, commit, today);
    var text := t.render(MetadataOf(d, tag, commit, today));
    SupportIsFile(d, text, middle);
    BundledShape(t, d, text, middle, after);
    StaleListing(t, d, after, n, text);
    BundleWrites(t, d, tag, commit, today);
    WindowOf(d, tag, commit, today, day);
    ApartCore(t, d, middle, after, MetadataOf(d, tag, commit, today), tag, day);
  }

  /**
   A checksum file that links to another asset is followed: the asset is overwritten after it was
   hashed, and no day accepts.
   */
  lemma LinkedSumsFails(t: Tools, d: Dir, tag: string, commit: string, today: int, day: int)
    requires Hexadecimal(t) && BundleOk(t, d, tag, commit, today)
    requires NoCollision(t, Middle(t, d, tag, commit, today)) && !SumsApart(t, Middle(t, d, tag, commit, today))
    ensures !Accepts(t, Bundled(t, d, tag, commit, today), tag, day)
  {
    OverwrittenRejected(t, Middle(t, d, tag, commit, today), Bundled(t, d, tag, commit, today), tag, day);
  }
}
