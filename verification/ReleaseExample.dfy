/**
 A concrete release that bundling accepts: six inventories that each list the metadata file with
 the digest it had before. It shows that both failing families of the round trip are inhabited.
 */
module ReleaseExample {
  import opened Options
  import opened SortedNames
  import opened Checksums
  import opened Release
  import opened ReleaseBundle
  import opened ReleaseRoundTrip

  function Repeated(c: char, n: nat): (s: string)
    ensures |s| == n && forall i :: 0 <= i < n ==> s[i] == c
  {
    seq(n, _ => c)
  }

  function Commit(): (s: string)
    ensures IsCommit(s)
  {
    Repeated('0', 40)
  }

  /** A digest that tells short, middling and long texts apart. */
  function Sha(x: string): (s: string)
    ensures IsDigest(s)
  {
    Repeated(if |x| <= 4 then '1' else if |x| < 66 then '2' else '0', 64)
  }

  lemma ShaDiffers(x: string, y: string)
    requires |x| <= 4 < |y| || |x| < 66 <= |y|
    ensures Sha(x) != Sha(y)
  {
    assert Sha(x)[0] != Sha(y)[0];
  }

  function InventoryName(k: Key): string {
    k.artifact + "-" + k.platform + INVENTORY
  }

  function InventoryOf(k: Key): Inventory {
    Inventory(k.artifact, k.platform, Commit(), "sbom", map["sbom" := Sha("sbom"), SUPPORT := Sha("old")],
      Some(SUPPORT_DAYS))
  }

  ghost function ReadName(x: string): Option<Inventory> {
    if exists k :: k in EXPECTED && InventoryName(k) == x
    then var k :| k in EXPECTED && InventoryName(k) == x; Some(InventoryOf(k))
    else None
  }

  ghost function ExampleTools(m: Support): Tools {
    Tools(x => Sha(x), x => ReadName(x), _ => true, _ => true, _ => "rendered", _ => Some(m))
  }

  ghost function NamesOf(keys: set<Key>): set<string> {
    (set k | k in keys :: InventoryName(k)) + (set k | k in keys :: GateName(InventoryOf(k))) + {"sbom", SUPPORT}
  }

  /** The six inventories, their gates, one shared listing and the old metadata; other files hold their own names. */
  ghost function Base(): Dir {
    map n | n in NamesOf(EXPECTED) :: File(if n == SUPPORT then "old" else n)
  }

  /** The same with a checksum file that links to the listing. */
  ghost function Linked(): Dir {
    Base()[SUMS := Link(Inside("sbom"))]
  }

  // ----- names -----

  predicate SafeTail(s: string) {
    forall i :: 0 <= i < |s| ==> IsAlnum(s[i]) || s[i] == '_' || s[i] == '.' || s[i] == '+' || s[i] == '-'
  }

  lemma SafeConcat(a: string, b: string)
    requires IsSafe(a) && SafeTail(b)
    ensures IsSafe(a + b)
  {
    forall i | 0 < i < |a + b|
      ensures var c := (a + b)[i]; IsAlnum(c) || c == '_' || c == '.' || c == '+' || c == '-'
    {
      if i >= |a| { assert (a + b)[i] == b[i - |a|]; }
    }
  }

  predicate Plain(s: string) {
    |s| > 0 && forall i :: 0 <= i < |s| ==> IsAlnum(s[i])
  }

  lemma PlainParts(k: Key)
    requires k in EXPECTED
    ensures Plain(k.artifact) && Plain(k.platform) && |k.artifact| <= 8 && |k.platform| <= 8
  {
    assert Plain("api") && Plain("postgres") && Plain("client") && Plain("pi");
    assert Plain("amd64") && Plain("arm64") && Plain("portable");
  }

  lemma SafeSuffixes()
    ensures SafeTail(INVENTORY) && SafeTail("-") && SafeTail(".gate.json")
    ensures |INVENTORY| == 15
  {
  }

  lemma SafeFixed()
    ensures IsSafe("sbom") && IsSafe(SUPPORT)
  {
  }

  lemma SafeNames(k: Key)
    requires k in EXPECTED
    ensures IsSafe(InventoryName(k)) && IsSafe(GateName(InventoryOf(k)))
    ensures |InventoryName(k)| < 66 && |GateName(InventoryOf(k))| < 66
  {
    PlainParts(k);
    SafeSuffixes();
    SafeConcat(k.artifact, "-");
    SafeConcat(k.artifact + "-", k.platform);
    SafeConcat(k.artifact + "-" + k.platform, INVENTORY);
    SafeConcat(k.artifact + "-" + k.platform, ".gate.json");
  }

  lemma DashSplits(a: string, p: string, b: string, q: string, suffix: string)
    requires Plain(a) && Plain(b) && a + "-" + p + suffix == b + "-" + q + suffix
    ensures a == b && p == q
  {
    var s, dash := a + "-" + p + suffix, "-";
    assert s[|a|] == dash[0] && s[|b|] == dash[0];
    assert s[..|a|] == a && s[..|b|] == b;
    assert s[|a| + 1..][..|p|] == p && s[|b| + 1..][..|q|] == q;
  }

  /** Artifact and platform together name an inventory. */
  lemma NamesDiffer(j: Key, k: Key)
    requires j in EXPECTED && k in EXPECTED && InventoryName(j) == InventoryName(k)
    ensures j == k
  {
    PlainParts(j);
    PlainParts(k);
    DashSplits(j.artifact, j.platform, k.artifact, k.platform, INVENTORY);
  }

  lemma ReadsBack(k: Key)
    requires k in EXPECTED
    ensures ReadName(InventoryName(k)) == Some(InventoryOf(k))
  {
    var j :| j in EXPECTED && InventoryName(j) == InventoryName(k) &&
      ReadName(InventoryName(k)) == Some(InventoryOf(j));
    NamesDiffer(j, k);
  }

  // ----- the directory -----

  lemma EndsWithSuffix(a: string, suffix: string)
    ensures EndsWith(a + suffix, suffix)
  {
    assert (a + suffix)[|a|..] == suffix;
  }

  lemma GateIsNoInventory(a: string, gate: string, inventory: string)
    requires |gate| == 10 && |inventory| == 15 && gate[4] != inventory[9]
    ensures !EndsWith(a + gate, inventory)
  {
    var g := a + gate;
    assert g[|g| - 6] == gate[4];
    assert |g| >= 15 ==> g[|g| - 15..][9] == g[|g| - 6];
  }

  /** Gates and fixed names are no inventories. */
  lemma NotInventories(k: Key)
    ensures EndsWith(InventoryName(k), INVENTORY) && !EndsWith(GateName(InventoryOf(k)), INVENTORY)
    ensures GateName(InventoryOf(k)) != SUMS
  {
    ReservedNames();
    EndsWithSuffix(k.artifact + "-" + k.platform, INVENTORY);
    var gate, inventory := ".gate.json", INVENTORY;
    assert |gate| == 10 && |inventory| == 15 && gate[4] == 'e' && inventory[9] == 'y';
    GateIsNoInventory(k.artifact + "-" + k.platform, gate, inventory);
  }

  lemma FixedNames()
    ensures !EndsWith("sbom", INVENTORY) && !EndsWith(SUPPORT, INVENTORY) && !EndsWith(SUMS, INVENTORY)
    ensures SUPPORT != SUMS && SUPPORT != "sbom" && SUMS != "sbom"
    ensures |"sbom"| == 4 && |"old"| == 3 && |"rendered"| == 8
  {
    ReservedNames();
    assert |INVENTORY| == 15 && |"security-support.json"| == 21 && |"SHA256SUMS"| == 10;
  }

  lemma SafeEntry(n: string)
    requires n in NamesOf(EXPECTED)
    ensures IsSafe(n) && |n| < 66
  {
    if k :| k in EXPECTED && (n == InventoryName(k) || n == GateName(InventoryOf(k))) {
      SafeNames(k);
    } else {
      SafeFixed();
      FixedNames();
    }
  }

  lemma InventoryEntry(n: string)
    requires n in NamesOf(EXPECTED)
    ensures EndsWith(n, INVENTORY) <==> exists k :: k in EXPECTED && InventoryName(k) == n
    ensures n != SUMS
  {
    FixedNames();
    if k :| k in EXPECTED && n == InventoryName(k) {
      NotInventories(k);
    } else if k :| k in EXPECTED && n == GateName(InventoryOf(k)) {
      NotInventories(k);
    }
  }

  /** An entry is an inventory, a gate, the listing or the metadata. */
  lemma EntryOf(n: string)
    requires n in Base()
    ensures IsSafe(n) && n != SUMS && Base()[n].File? && |Base()[n].text| < 66
    ensures EndsWith(n, INVENTORY) <==> exists k :: k in EXPECTED && InventoryName(k) == n
    ensures Base()[n] == File(if n == SUPPORT then "old" else n)
  {
    FixedNames();
    SafeEntry(n);
    InventoryEntry(n);
  }

  // ----- bundling accepts it -----

  ghost predicate IsExample(d: Dir) {
    d == Base() || d == Linked()
  }

  /** Both directories have the same entries, apart from the checksum file. */
  lemma ExampleEntries(d: Dir)
    requires IsExample(d)
    ensures forall n :: n in Base() ==> n in d && d[n] == Base()[n]
    ensures forall n :: n in d && n != SUMS ==> n in Base()
    ensures SUMS in d ==> d[SUMS] == Link(Inside("sbom"))
    ensures "sbom" in Base() && SUPPORT in Base()
  {
    if SUMS in Base() { EntryOf(SUMS); }
  }

  lemma ExampleInventories(d: Dir, n: string)
    requires IsExample(d)
    ensures n in InventoryFiles(d) <==> exists k :: k in EXPECTED && InventoryName(k) == n
  {
    ExampleEntries(d);
    FixedNames();
    if n in Base() { EntryOf(n); }
    if k :| k in EXPECTED && InventoryName(k) == n { assert n in Base(); }
  }

  lemma KeyIs(k: Key)
    requires k in EXPECTED
    ensures KeyOf(InventoryOf(k)) == k
  {
    assert |"api"| == 3 && |"postgres"| == 8 && |"client"| == 6 && |"pi"| == 2;
  }

  lemma ExampleReads(m: Support, d: Dir, k: Key)
    requires IsExample(d) && k in EXPECTED
    ensures InventoryName(k) in d && ReadInventory(ExampleTools(m), d, InventoryName(k)) == Some(InventoryOf(k))
    ensures GateName(InventoryOf(k)) in d && d[GateName(InventoryOf(k))].File?
  {
    ExampleEntries(d);
    assert InventoryName(k) in Base() && GateName(InventoryOf(k)) in Base();
    EntryOf(InventoryName(k));
    FixedNames();
    NotInventories(k);
    ReadsBack(k);
  }

  lemma ExampleFiles(m: Support, d: Dir, k: Key, f: string)
    requires IsExample(d) && f in InventoryOf(k).files
    ensures IsSafe(f) && Digest(ExampleTools(m), d, f) == Some(InventoryOf(k).files[f])
  {
    ExampleEntries(d);
    FixedNames();
    EntryOf(f);
  }

  lemma CheckedIs(t: Tools, d: Dir, n: string, inv: Inventory, allowed: set<Key>)
    requires ReadInventory(t, d, n) == Some(inv) && KeyOf(inv) in allowed && inv.sbom in inv.files
    requires forall f :: f in inv.files ==> IsSafe(f) && Digest(t, d, f) == Some(inv.files[f])
    requires IsSafe(inv.artifact) && IsSafe(inv.architecture)
    requires Read(d, GateName(inv)).Some? && t.gateClean(Read(d, GateName(inv)).value)
    ensures Checked(t, d, n, inv.commit, allowed) == Some(KeyOf(inv))
  {
  }

  lemma ExampleChecks(m: Support, d: Dir, k: Key)
    requires IsExample(d) && k in EXPECTED
    ensures Checked(ExampleTools(m), d, InventoryName(k), Commit(), EXPECTED) == Some(k)
  {
    var t := ExampleTools(m);
    ExampleReads(m, d, k);
    KeyIs(k);
    assert IsSafe(k.artifact) && IsSafe(k.platform) by { PlainParts(k); }
    forall f | f in InventoryOf(k).files ensures IsSafe(f) && Digest(t, d, f) == Some(InventoryOf(k).files[f]) {
      ExampleFiles(m, d, k, f);
    }
    CheckedIs(t, d, InventoryName(k), InventoryOf(k), EXPECTED);
  }

  ghost predicate KeysNamed(names: seq<string>, keys: seq<Option<Key>>) {
    && |keys| == |names|
    && forall i :: 0 <= i < |keys| ==>
       keys[i].Some? && keys[i].value in EXPECTED && InventoryName(keys[i].value) == names[i]
  }

  lemma ExampleKeys(m: Support, d: Dir, names: seq<string>)
    requires IsExample(d) && forall i :: 0 <= i < |names| ==> names[i] in InventoryFiles(d)
    ensures KeysNamed(names, CheckedAll(ExampleTools(m), d, names, Commit(), EXPECTED))
  {
    forall i | 0 <= i < |names|
      ensures exists k :: k in EXPECTED && InventoryName(k) == names[i] &&
                          Checked(ExampleTools(m), d, names[i], Commit(), EXPECTED) == Some(k)
    {
      ExampleInventories(d, names[i]);
      var k :| k in EXPECTED && InventoryName(k) == names[i];
      ExampleChecks(m, d, k);
    }
  }

  lemma AllFound(names: seq<string>, keys: seq<Option<Key>>)
    requires KeysNamed(names, keys) && Strict(names) && forall k :: k in EXPECTED ==> InventoryName(k) in names
    ensures FoundIs(keys, EXPECTED)
  {
    forall k | k in EXPECTED ensures Some(k) in keys {
      var i :| 0 <= i < |names| && names[i] == InventoryName(k);
      NamesDiffer(keys[i].value, k);
      assert keys[i] == Some(k);
    }
  }

  lemma ExampleSet(m: Support, d: Dir)
    requires IsExample(d)
    ensures InventorySetOk(ExampleTools(m), d, Commit(), false)
  {
    var names := Sorted(InventoryFiles(d));
    var keys := CheckedAll(ExampleTools(m), d, names, Commit(), EXPECTED);
    assert forall i :: 0 <= i < |names| ==> names[i] in names;
    ExampleKeys(m, d, names);
    forall k | k in EXPECTED ensures InventoryName(k) in names { ExampleInventories(d, InventoryName(k)); }
    AllFound(names, keys);
    AllCurrent();
  }

  lemma AllCurrent()
    ensures Complete(EXPECTED)
  {
    CurrentAndRetired();
  }

  lemma ExampleSupport(m: Support, d: Dir)
    requires IsExample(d)
    ensures SupportLongEnough(ExampleTools(m), d, 0)
  {
    forall n | n in InventoryFiles(d) ensures ReadInventory(ExampleTools(m), d, n).Some? &&
      ReadInventory(ExampleTools(m), d, n).value.supportEnds == Some(SUPPORT_DAYS)
    {
      ExampleInventories(d, n);
      var k :| k in EXPECTED && InventoryName(k) == n;
      ExampleReads(m, d, k);
    }
  }

  ghost function MetadataFor(d: Dir, tag: string): Support {
    MetadataOf(d, tag, Commit(), 0)
  }

  lemma ExampleMiddle(d: Dir, m: Support, tag: string)
    requires IsExample(d)
    ensures WithSupport(ExampleTools(m), d, tag, Commit(), 0) == Some(d[SUPPORT := File("rendered")])
    ensures AllRegular(d[SUPPORT := File("rendered")])
  {
    ExampleEntries(d);
    FixedNames();
    EntryOf(SUPPORT);
    forall n | n in d && n != SUMS ensures IsSafe(n) && d[n].File? { EntryOf(n); }
  }

  lemma SumsWritable(d: Dir, text: string, m: string)
    requires SUMS !in d || (d[SUMS] == Link(Inside(m)) && m in d && d[m].File?)
    ensures Write(d, SUMS, text).Some?
  {
  }

  lemma ExampleSums(d: Dir, m: Support)
    requires IsExample(d) && AllRegular(d[SUPPORT := File("rendered")])
    ensures WithSums(ExampleTools(m), d[SUPPORT := File("rendered")]).Some?
  {
    ExampleEntries(d);
    FixedNames();
    EntryOf("sbom");
    var middle := d[SUPPORT := File("rendered")];
    SumsWritable(middle, Render(SumsOf(ExampleTools(m), middle)), "sbom");
  }

  lemma ExampleEvidence(d: Dir, m: Support)
    requires IsExample(d)
    ensures EvidenceOk(ExampleTools(m), d, Commit(), 0)
  {
    ExampleSet(m, d);
    ExampleSupport(m, d);
  }

  /** Bundling accepts the release, with or without the link. */
  lemma ExampleBundles(d: Dir, tag: string)
    requires IsExample(d)
    ensures var t := ExampleTools(MetadataFor(d, tag));
            && Hexadecimal(t) && BundleOk(t, d, tag, Commit(), 0) && Parses(t, d, tag, Commit(), 0)
  {
    var m := MetadataFor(d, tag);
    ExampleEvidence(d, m);
    ExampleMiddle(d, m, tag);
    ExampleSums(d, m);
  }

  /** Its inventories list the metadata as it was, so after bundling no day accepts it. */
  lemma StaleExample(tag: string, day: int)
    ensures var d := Base();
            var t := ExampleTools(MetadataFor(d, tag));
            BundleOk(t, d, tag, Commit(), 0) && !Accepts(t, Bundled(t, d, tag, Commit(), 0), tag, day)
  {
    var d := Base();
    var m, k := MetadataFor(d, tag), Key("api", "amd64");
    ExampleBundles(d, tag);
    ExampleReads(m, d, k);
    ExampleInventories(d, InventoryName(k));
    FixedNames();
    ShaDiffers("old", "rendered");
    ExampleEntries(d);
    if SUMS in d { EntryOf(SUMS); }
    StaleListingFails(ExampleTools(m), d, tag, Commit(), 0, day, InventoryName(k));
  }

  lemma LongSums(t: Tools, d: Dir)
    requires Hexadecimal(t) && AllRegular(d) && d.Keys - {SUMS} != {}
    ensures |Render(SumsOf(t, d))| >= 66
  {
    var n :| n in d.Keys - {SUMS};
    SumsNamed(t, d);
    var i :| 0 <= i < |SumsOf(t, d)| && SumsOf(t, d)[i].name == n;
    assert |RenderLine(SumsOf(t, d)[0])| >= 66;
  }

  /** Its checksum file links to the listing, which bundling overwrites, so no day accepts it. */
  lemma LinkedExample(tag: string, day: int)
    ensures var d := Linked();
            var t := ExampleTools(MetadataFor(d, tag));
            BundleOk(t, d, tag, Commit(), 0) && !Accepts(t, Bundled(t, d, tag, Commit(), 0), tag, day)
  {
    var d := Linked();
    var m := MetadataFor(d, tag);
    var t, middle := ExampleTools(m), d[SUPPORT := File("rendered")];
    ExampleBundles(d, tag);
    ExampleMiddle(d, m, tag);
    LinkedCollides(t, m, d, middle);
    LinkedSumsFails(t, d, tag, Commit(), 0, day);
  }

  lemma ShortTexts(d: Dir)
    requires IsExample(d)
    ensures forall n :: n in d && d[n].File? ==> |d[n].text| < 66
    ensures "sbom" in d && d["sbom"] == File("sbom")
  {
    ExampleEntries(d);
    FixedNames();
    EntryOf("sbom");
    forall n | n in d && d[n].File? ensures |d[n].text| < 66 { EntryOf(n); }
  }

  lemma LinkedCollides(t: Tools, m: Support, d: Dir, middle: Dir)
    requires d == Linked() && t == ExampleTools(m) && middle == d[SUPPORT := File("rendered")] && AllRegular(middle)
    ensures NoCollision(t, middle) && !SumsApart(t, middle)
  {
    ShortTexts(d);
    ShortMiddle(d, middle);
    LongSums(t, middle);
    LongDiffers(t, m, middle, Render(SumsOf(t, middle)));
    Overwrites(t, middle, "sbom");
  }

  lemma ShortMiddle(d: Dir, middle: Dir)
    requires d == Linked() && middle == d[SUPPORT := File("rendered")]
    requires (forall n :: n in d && d[n].File? ==> |d[n].text| < 66) && "sbom" in d && d["sbom"] == File("sbom")
    ensures forall n :: n in middle && middle[n].File? ==> |middle[n].text| < 66
    ensures "sbom" in middle && middle["sbom"] == File("sbom") && LinkedAsset(middle) == Some("sbom")
    ensures middle.Keys - {SUMS} != {}
  {
    FixedNames();
    assert "sbom" in middle.Keys - {SUMS};
  }

  lemma Overwrites(t: Tools, d: Dir, name: string)
    requires AllRegular(d) && LinkedAsset(d) == Some(name) && name in d && d[name].File?
    requires forall n :: n in d && d[n].File? ==> t.sha(d[n].text) != t.sha(Render(SumsOf(t, d)))
    ensures NoCollision(t, d) && !SumsApart(t, d)
  {
  }

  lemma LongDiffers(t: Tools, m: Support, d: Dir, text: string)
    requires t == ExampleTools(m) && |text| >= 66 && forall n :: n in d && d[n].File? ==> |d[n].text| < 66
    ensures forall n :: n in d && d[n].File? ==> t.sha(d[n].text) != t.sha(text)
  {
    forall n | n in d && d[n].File? ensures t.sha(d[n].text) != t.sha(text) { ShaDiffers(d[n].text, text); }
  }
}
