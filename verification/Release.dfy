/**
 Release evidence: bundling a directory writes support metadata and checksums, and
 a later rescan verifies them. Hashing, JSON and the wheel and static-analysis
 checks are functions that this model leaves open.
 */
module Release {
  import opened Options
  import opened SortedNames
  import opened Checksums

  /**
   Where a symbolic link ends: an entry of the same directory, a place outside with or without a
   file, or nowhere usable.
   */
  datatype Target = Inside(name: string) | Outside(text: Option<string>) | Broken

  datatype Node = File(text: string) | Link(target: Target) | NotRegular

  type Dir = map<string, Node>

  /** Reading follows a link. */
  function Read(d: Dir, name: string): Option<string> {
    if name !in d then None
    else
      match d[name]
      case File(text) => Some(text)
      case Link(Inside(m)) => if m in d && d[m].File? then Some(d[m].text) else None
      case Link(Outside(text)) => text
      case _ => None
  }

  /** Writing follows a link too, and raises where no file can be written. */
  function Write(d: Dir, name: string, text: string): Option<Dir> {
    if name !in d || d[name].File? then Some(d[name := File(text)])
    else
      match d[name]
      case Link(Inside(m)) => if m !in d || d[m].File? then Some(d[m := File(text)]) else None
      case Link(Outside(_)) => Some(d[name := Link(Outside(Some(text)))])
      case _ => None
  }

  datatype Key = Key(artifact: string, platform: string)

  datatype Inventory = Inventory(
    artifact: string, architecture: string, commit: string, sbom: string, files: map<string, string>,
      supportEnds: Option<int>)

  /** The support metadata; dates are day numbers. */
  datatype Support = Support(schema: int, tag: string, commit: string, starts: int, ends: int, inventories: seq<string>)

  datatype Tools = Tools(
    sha: string -> string,
    inventory: string -> Option<Inventory>,
    gateClean: string -> bool,
    scanned: Dir -> bool,
    render: Support -> string,
    parse: string -> Option<Support>)

  /** Digests are hexadecimal. */
  ghost predicate Hexadecimal(t: Tools) {
    forall x :: IsDigest(t.sha(x))
  }

  const SUPPORT := "security-support.json"
  const SUMS := "SHA256SUMS"
  const INVENTORY := ".inventory.json"
  const SUPPORT_DAYS := 90

  const EXPECTED: set<Key> := {
    Key("api", "amd64"), Key("api", "arm64"), Key("postgres", "amd64"), Key("postgres", "arm64"),
    Key("client", "portable"), Key("pi", "portable")}
  const RETIRED: set<Key> := {Key("gateway", "amd64"), Key("gateway", "arm64")}

  function Allowed(retained: bool): set<Key> {
    if retained then EXPECTED + RETIRED else EXPECTED
  }

  predicate EndsWith(name: string, suffix: string) {
    |name| >= |suffix| && name[|name| - |suffix|..] == suffix
  }

  function InventoryFiles(d: Dir): set<string> {
    set n | n in d && EndsWith(n, INVENTORY)
  }

  /** The digest of a regular file; a link is refused. */
  function Digest(t: Tools, d: Dir, name: string): Option<string> {
    if name in d && d[name].File? then Some(t.sha(d[name].text)) else None
  }

  function ReadInventory(t: Tools, d: Dir, name: string): Option<Inventory> {
    if Read(d, name).Some? then t.inventory(Read(d, name).value) else None
  }

  function KeyOf(inv: Inventory): Key {
    Key(inv.artifact, if inv.artifact == "client" || inv.artifact == "pi" then "portable" else inv.architecture)
  }

  function GateName(inv: Inventory): string {
    inv.artifact + "-" + inv.architecture + ".gate.json"
  }

  /** An inventory of the right commit whose listed files are all present and unaltered, with a clean gate. */
  predicate InventoryOk(t: Tools, d: Dir, name: string, commit: string, allowed: set<Key>) {
    var inv := ReadInventory(t, d, name);
    && inv.Some?
    && KeyOf(inv.value) in allowed && inv.value.commit == commit
    && inv.value.sbom in inv.value.files
    && (forall f :: f in inv.value.files ==> IsSafe(f) && Digest(t, d, f) == Some(inv.value.files[f]))
    && IsSafe(inv.value.artifact) && IsSafe(inv.value.architecture)
    && Read(d, GateName(inv.value)).Some? && t.gateClean(Read(d, GateName(inv.value)).value)
  }

  /** The key of an inventory that checks. */
  function Checked(t: Tools, d: Dir, name: string, commit: string, allowed: set<Key>): Option<Key> {
    if InventoryOk(t, d, name, commit, allowed) then Some(KeyOf(ReadInventory(t, d, name).value)) else None
  }

  function CheckedAll(t: Tools, d: Dir, names: seq<string>, commit: string, allowed: set<Key>): seq<Option<Key>> {
    seq(|names|, i requires 0 <= i < |names| => Checked(t, d, names[i], commit, allowed))
  }

  /** The keys of a list in which every inventory checks and no key repeats. */
  ghost predicate FoundIs(keys: seq<Option<Key>>, found: set<Key>) {
    && (forall i :: 0 <= i < |keys| ==> keys[i].Some? && keys[i].value in found)
    && (forall k :: k in found ==> Some(k) in keys)
    && (forall i, j :: 0 <= i < j < |keys| ==> keys[i] != keys[j])
  }

  predicate Complete(found: set<Key>) {
    found - RETIRED == EXPECTED && (found * RETIRED == {} || found * RETIRED == RETIRED)
  }

  ghost predicate InventorySetOk(t: Tools, d: Dir, commit: string, retained: bool) {
    exists found :: FoundIs(CheckedAll(t, d, Sorted(InventoryFiles(d)), commit, Allowed(retained)), found) &&
      Complete(found)
  }

  /** Check every inventory file in order, collecting keys and names. */
  method InventorySet(t: Tools, d: Dir, commit: string, retained: bool) returns (r: Option<seq<string>>)
    ensures r.Some? <==> InventorySetOk(t, d, commit, retained)
    ensures r.Some? ==> r.value == Sorted(InventoryFiles(d))
  {
    var names := Sorted(InventoryFiles(d));
    ghost var keys := CheckedAll(t, d, names, commit, Allowed(retained));
    var found: set<Key> := {};
    for k := 0 to |names|
      invariant FoundIs(keys[..k], found)
    {
      var key := Checked(t, d, names[k], commit, Allowed(retained));
      assert key == keys[k];
      if key.None? || key.value in found {
        FoundStuck(keys, found, k);
        return None;
      }
      FoundSnoc(keys, found, k);
      found := found + {key.value};
    }
    assert keys[..|keys|] == keys;
    FoundDecides(keys, found);
    if !Complete(found) { return None; }
    r := Some(names);
  }

  lemma FoundSnoc(keys: seq<Option<Key>>, found: set<Key>, k: nat)
    requires k < |keys| && FoundIs(keys[..k], found) && keys[k].Some? && keys[k].value !in found
    ensures FoundIs(keys[..k + 1], found + {keys[k].value})
  {
    var longer, shorter := keys[..k + 1], keys[..k];
    assert longer == shorter + [keys[k]];
  }

  /** A bad or repeated inventory leaves no set of keys that fits the whole list. */
  lemma FoundStuck(keys: seq<Option<Key>>, found: set<Key>, k: nat)
    requires k < |keys| && FoundIs(keys[..k], found) && (keys[k].None? || keys[k].value in found)
    ensures forall other :: !FoundIs(keys, other)
  {
    if keys[k].Some? {
      var i :| 0 <= i < k && keys[..k][i] == keys[k];
      assert keys[i] == keys[k];
    }
  }

  lemma FoundUnique(keys: seq<Option<Key>>, found: set<Key>, other: set<Key>)
    requires FoundIs(keys, found) && FoundIs(keys, other)
    ensures found == other
  {
    forall k | k in found ensures k in other { var i :| 0 <= i < |keys| && keys[i] == Some(k); }
    forall k | k in other ensures k in found { var i :| 0 <= i < |keys| && keys[i] == Some(k); }
  }

  lemma FoundDecides(keys: seq<Option<Key>>, found: set<Key>)
    requires FoundIs(keys, found)
    ensures (exists other :: FoundIs(keys, other) && Complete(other)) == Complete(found)
  {
    forall other | FoundIs(keys, other) ensures other == found { FoundUnique(keys, found, other); }
  }

  /** As many keys as inventories. */
  lemma {:induction false} FoundCount(keys: seq<Option<Key>>, found: set<Key>)
    requires FoundIs(keys, found)
    ensures |found| == |keys|
  {
    if keys == [] {
      assert found == {};
    } else {
      var k := |keys| - 1;
      var last := keys[k].value;
      forall key | key in found - {last} ensures Some(key) in keys[..k] {
        var i :| 0 <= i < |keys| && keys[i] == Some(key);
        assert keys[..k][i] == Some(key);
      }
      FoundCount(keys[..k], found - {last});
    }
  }

  lemma CurrentAndRetired()
    ensures |EXPECTED| == 6 && |RETIRED| == 2 && EXPECTED !! RETIRED
  {
    var amd, arm := "amd64", "arm64";
    assert amd[1] != arm[1];
    assert |"api"| == 3 && |"postgres"| == 8 && |"client"| == 6 && |"pi"| == 2 && |"gateway"| == 7;
  }

  /** An accepted set holds the six current inventories, alone or with both retired ones. */
  lemma SixOrEight(t: Tools, d: Dir, commit: string, retained: bool)
    requires InventorySetOk(t, d, commit, retained)
    ensures |Sorted(InventoryFiles(d))| == 6 || (retained && |Sorted(InventoryFiles(d))| == 8)
  {
    var names := Sorted(InventoryFiles(d));
    var keys := CheckedAll(t, d, names, commit, Allowed(retained));
    var found :| FoundIs(keys, found) && Complete(found);
    FoundCount(keys, found);
    FoundWithin(t, d, names, commit, Allowed(retained), found);
    CompleteSize(found);
  }

  lemma FoundWithin(t: Tools, d: Dir, names: seq<string>, commit: string, allowed: set<Key>, found: set<Key>)
    requires FoundIs(CheckedAll(t, d, names, commit, allowed), found)
    ensures found <= allowed
  {
    var keys := CheckedAll(t, d, names, commit, allowed);
    forall k | k in found ensures k in allowed {
      var i :| 0 <= i < |keys| && keys[i] == Some(k);
      assert Checked(t, d, names[i], commit, allowed) == Some(k);
    }
  }

  lemma CompleteSize(found: set<Key>)
    requires Complete(found)
    ensures |found| == 6 || |found| == 8
    ensures found <= EXPECTED ==> |found| == 6
  {
    CurrentAndRetired();
    var current, retired := found - RETIRED, found * RETIRED;
    assert found == current + retired && current !! retired;
    assert |found| == |current| + |retired|;
    if found <= EXPECTED { assert retired == {}; }
  }
}
