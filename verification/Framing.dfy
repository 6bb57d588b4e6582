/**
 The two source digests hash a byte string of length-prefixed fields. A returned
 digest determines the files, and exactly when it depends on discovery order.
 The text encoding of names and the hash are open, injective functions.
 */
module Framing {
  import opened Options
  import opened SortedNames

  type Byte = x: int | 0 <= x < 256

  datatype Entry = Entry(name: string, executable: bool, data: seq<Byte>)

  /** The width of the name's length field, and whether a byte tells if the file is executable. */
  datatype Format = Format(nameWidth: nat, flagged: bool)

  const TREE := Format(8, true)
  const MIGRATION := Format(4, false)

  type Encoder = string -> seq<Byte>
  type Hasher = seq<Byte> -> string

  ghost predicate Injective(encode: Encoder, sha: Hasher) {
    && (forall a, b :: encode(a) == encode(b) ==> a == b)
    && (forall a, b :: sha(a) == sha(b) ==> a == b)
  }

  // ----- numbers of a fixed width, most significant byte first -----

  function Limit(width: nat): (p: nat) {
    if width == 0 then 1 else 256 * Limit(width - 1)
  }

  function BigEndian(n: nat, width: nat): (r: seq<Byte>)
    ensures |r| == width
  {
    if width == 0 then [] else BigEndian(n / 256, width - 1) + [n % 256]
  }

  function Value(bytes: seq<Byte>): nat {
    if bytes == [] then 0 else 256 * Value(bytes[..|bytes| - 1]) + bytes[|bytes| - 1]
  }

  /** A number that fits its width is read back. */
  lemma {:induction false} ValueOfBigEndian(n: nat, width: nat)
    requires n < Limit(width)
    ensures Value(BigEndian(n, width)) == n
  {
    if width > 0 {
      ValueOfBigEndian(n / 256, width - 1);
      var r := BigEndian(n, width);
      assert r[..|r| - 1] == BigEndian(n / 256, width - 1);
    }
  }

  // ----- fields and frames -----

  function Field(content: seq<Byte>, width: nat): seq<Byte> {
    BigEndian(|content|, width) + content
  }

  /** The content of the first field and the bytes after it. */
  function ReadField(bytes: seq<Byte>, width: nat): (r: Option<(seq<Byte>, seq<Byte>)>)
    ensures r.Some? ==> |r.value.1| + width <= |bytes|
  {
    if |bytes| < width then None
    else
      var end := width + Value(bytes[..width]);
      if |bytes| < end then None else Some((bytes[width..end], bytes[end..]))
  }

  lemma FieldIsRead(content: seq<Byte>, width: nat, more: seq<Byte>)
    requires |content| < Limit(width)
    ensures ReadField(Field(content, width) + more, width) == Some((content, more))
  {
    var bytes := Field(content, width) + more;
    assert bytes[..width] == BigEndian(|content|, width);
    ValueOfBigEndian(|content|, width);
    var end := width + |content|;
    assert bytes[width..end] == content && bytes[end..] == more;
  }

  function Flag(f: Format, e: Entry): seq<Byte> {
    if f.flagged then [if e.executable then 1 else 0] else []
  }

  function Frame(f: Format, encode: Encoder, e: Entry): seq<Byte> {
    Field(encode(e.name), f.nameWidth) + Flag(f, e) + Field(e.data, 8)
  }

  function Flat(parts: seq<seq<Byte>>): seq<Byte> {
    if parts == [] then [] else parts[0] + Flat(parts[1..])
  }

  lemma {:induction false} FlatSnoc(parts: seq<seq<Byte>>, last: seq<Byte>)
    ensures Flat(parts + [last]) == Flat(parts) + last
  {
    if parts == [] {
      assert parts + [last] == [last];
    } else {
      FlatSnoc(parts[1..], last);
      assert (parts + [last])[1..] == parts[1..] + [last];
    }
  }

  function Parts(f: Format, encode: Encoder, es: seq<Entry>): seq<seq<Byte>> {
    seq(|es|, i requires 0 <= i < |es| => Frame(f, encode, es[i]))
  }

  /** All that is hashed. */
  function Frames(f: Format, encode: Encoder, es: seq<Entry>): seq<Byte> {
    Flat(Parts(f, encode, es))
  }

  /** Both lengths fit their fields; otherwise the conversion to bytes raises. */
  predicate Fits(f: Format, encode: Encoder, e: Entry) {
    |encode(e.name)| < Limit(f.nameWidth) && |e.data| < Limit(8)
  }

  predicate AllFit(f: Format, encode: Encoder, es: seq<Entry>) {
    forall i :: 0 <= i < |es| ==> Fits(f, encode, es[i])
  }

  /** What the bytes of a frame say: the executable bit only where the format has one. */
  datatype Raw = Raw(name: seq<Byte>, flag: seq<Byte>, data: seq<Byte>)

  function RawOf(f: Format, encode: Encoder, e: Entry): Raw {
    Raw(encode(e.name), Flag(f, e), e.data)
  }

  function ReadFrame(f: Format, bytes: seq<Byte>): (r: Option<(Raw, seq<Byte>)>)
    ensures r.Some? ==> |r.value.1| < |bytes|
  {
    var name := ReadField(bytes, f.nameWidth);
    var flagWidth := if f.flagged then 1 else 0;
    if name.None? || |name.value.1| < flagWidth then None
    else
      var data := ReadField(name.value.1[flagWidth..], 8);
      if data.None? then None else Some((Raw(name.value.0, name.value.1[..flagWidth], data.value.0), data.value.1))
  }

  lemma FrameIsRead(f: Format, encode: Encoder, e: Entry, more: seq<Byte>)
    requires Fits(f, encode, e)
    ensures ReadFrame(f, Frame(f, encode, e) + more) == Some((RawOf(f, encode, e), more))
  {
    var name, flag, data := encode(e.name), Flag(f, e), Field(e.data, 8);
    FieldIsRead(name, f.nameWidth, flag + (data + more));
    FieldIsRead(e.data, 8, more);
    assert Frame(f, encode, e) + more == Field(name, f.nameWidth) + (flag + (data + more));
    assert (flag + (data + more))[|flag|..] == data + more && (flag + (data + more))[..|flag|] == flag;
  }

  /** The frames that a byte string holds, if it is made of whole frames. */
  function Read(f: Format, bytes: seq<Byte>): Option<seq<Raw>>
    decreases |bytes|
  {
    if bytes == [] then Some([])
    else
      var first := ReadFrame(f, bytes);
      if first.None? then None
      else
        var rest := Read(f, first.value.1);
        if rest.None? then None else Some([first.value.0] + rest.value)
  }

  function RawAll(f: Format, encode: Encoder, es: seq<Entry>): seq<Raw> {
    seq(|es|, i requires 0 <= i < |es| => RawOf(f, encode, es[i]))
  }

  lemma FramesSnoc(f: Format, encode: Encoder, es: seq<Entry>, e: Entry)
    ensures Frames(f, encode, es + [e]) == Frames(f, encode, es) + Frame(f, encode, e)
  {
    assert Parts(f, encode, es + [e]) == Parts(f, encode, es) + [Frame(f, encode, e)];
    FlatSnoc(Parts(f, encode, es), Frame(f, encode, e));
  }

  lemma FramesHead(f: Format, encode: Encoder, es: seq<Entry>)
    requires es != []
    ensures Frames(f, encode, es) == Frame(f, encode, es[0]) + Frames(f, encode, es[1..])
  {
    assert Parts(f, encode, es)[1..] == Parts(f, encode, es[1..]);
  }

  lemma ReadNext(f: Format, bytes: seq<Byte>, raw: Raw, more: seq<Byte>, raws: seq<Raw>)
    requires ReadFrame(f, bytes) == Some((raw, more)) && Read(f, more) == Some(raws)
    ensures Read(f, bytes) == Some([raw] + raws)
  {
  }

  lemma RawHead(f: Format, encode: Encoder, es: seq<Entry>)
    requires es != []
    ensures RawAll(f, encode, es) == [RawOf(f, encode, es[0])] + RawAll(f, encode, es[1..])
  {
  }

  /** Decoding what was hashed gives every file back, in the order it was hashed. */
  lemma {:induction false} FramesAreRead(f: Format, encode: Encoder, es: seq<Entry>)
    requires AllFit(f, encode, es)
    ensures Read(f, Frames(f, encode, es)) == Some(RawAll(f, encode, es))
  {
    if es == [] {
      assert Parts(f, encode, es) == [] && Frames(f, encode, es) == [];
      assert RawAll(f, encode, es) == [];
    } else {
      var bytes, more := Frames(f, encode, es), Frames(f, encode, es[1..]);
      FramesHead(f, encode, es);
      FrameIsRead(f, encode, es[0], more);
      FramesAreRead(f, encode, es[1..]);
      ReadNext(f, bytes, RawOf(f, encode, es[0]), more, RawAll(f, encode, es[1..]));
      RawHead(f, encode, es);
    }
  }

  /** Where the format has no executable bit, the entries carry none. */
  predicate Plain(f: Format, es: seq<Entry>) {
    f.flagged || forall i :: 0 <= i < |es| ==> !es[i].executable
  }

  lemma FramesInjective(f: Format, encode: Encoder, sha: Hasher, a: seq<Entry>, b: seq<Entry>)
    requires Injective(encode, sha)
    requires AllFit(f, encode, a) && AllFit(f, encode, b) && Plain(f, a) && Plain(f, b)
    requires Frames(f, encode, a) == Frames(f, encode, b)
    ensures a == b
  {
    FramesAreRead(f, encode, a);
    FramesAreRead(f, encode, b);
    var ra, rb := RawAll(f, encode, a), RawAll(f, encode, b);
    assert ra == rb && |a| == |b|;
    forall i | 0 <= i < |a| ensures a[i] == b[i] {
      assert ra[i] == RawOf(f, encode, a[i]) && rb[i] == RawOf(f, encode, b[i]);
      assert f.flagged ==> Flag(f, a[i])[0] == Flag(f, b[i])[0];
    }
  }

  /** A hash object: `digest.update` appends to what is hashed. */
  class Hash {
    var fed: seq<Byte>

    constructor ()
      ensures fed == []
    {
      fed := [];
    }

    method Update(bytes: seq<Byte>)
      modifies this
      ensures fed == old(fed) + bytes
    {
      fed := fed + bytes;
    }

    method FeedTree(encode: Encoder, e: Entry)
      modifies this
      ensures fed == old(fed) + Frame(TREE, encode, e)
    {
      Update(Field(encode(e.name), 8));
      Update([if e.executable then 1 else 0]);
      Update(Field(e.data, 8));
    }

    method FeedMigration(encode: Encoder, e: Entry)
      modifies this
      ensures fed == old(fed) + Frame(MIGRATION, encode, e)
    {
      var name := encode(e.name);
      Update(BigEndian(|name|, 4));
      Update(name);
      Update(BigEndian(|e.data|, 8));
      Update(e.data);
    }
  }

  // ----- the production source tree -----

  datatype Node = Regular(executable: bool, data: seq<Byte>) | Irregular

  type Tree = map<string, Node>

  ghost predicate TreeOk(encode: Encoder, tree: Tree) {
    forall n :: n in tree ==> tree[n].Regular? && Fits(TREE, encode, EntryAt(tree, n))
  }

  function EntryAt(tree: Tree, n: string): Entry
    requires n in tree && tree[n].Regular?
  {
    Entry(n, tree[n].executable, tree[n].data)
  }

  ghost predicate Lists(tree: Tree, names: seq<string>, es: seq<Entry>) {
    && |es| == |names|
    && forall i :: 0 <= i < |es| ==> names[i] in tree && tree[names[i]].Regular? && es[i] == EntryAt(tree, names[i])
  }

  /** The digest is the hash of the frames of all files in name order. */
  ghost predicate IsTreeDigest(encode: Encoder, sha: Hasher, tree: Tree, digest: string) {
    exists es :: Lists(tree, Sorted(tree.Keys), es) && AllFit(TREE, encode, es) &&
      digest == sha(Frames(TREE, encode, es))
  }

  /** The files of these names were hashed in turn. */
  ghost predicate Hashed(encode: Encoder, tree: Tree, names: seq<string>, es: seq<Entry>, fed: seq<Byte>) {
    Lists(tree, names, es) && AllFit(TREE, encode, es) && fed == Frames(TREE, encode, es)
  }

  lemma HashedNext(encode: Encoder, tree: Tree, names: seq<string>, es: seq<Entry>, fed: seq<Byte>, n: string)
    requires Hashed(encode, tree, names, es, fed)
    requires n in tree && tree[n].Regular? && Fits(TREE, encode, EntryAt(tree, n))
    ensures var e := EntryAt(tree, n); Hashed(encode, tree, names + [n], es + [e], fed + Frame(TREE, encode, e))
  {
    var e := EntryAt(tree, n);
    FramesSnoc(TREE, encode, es, e);
    assert AllFit(TREE, encode, es + [e]);
    assert Lists(tree, names + [n], es + [e]);
  }

  /** Hash the named files in the given order, unless one is not a regular file or does not fit. */
  method FeedAll(encode: Encoder, tree: Tree, names: seq<string>) returns (r: Option<seq<Byte>>, ghost es: seq<Entry>)
    requires forall i :: 0 <= i < |names| ==> names[i] in tree
    ensures r.Some? ==> Hashed(encode, tree, names, es, r.value)
    ensures r.None? ==> !TreeOk(encode, tree)
  {
    var digest := new Hash();
    es := [];
    for i := 0 to |names|
      invariant Hashed(encode, tree, names[..i], es, digest.fed)
    {
      if tree[names[i]].Irregular? { return None, es; }
      var e := EntryAt(tree, names[i]);
      if !Fits(TREE, encode, e) { return None, es; }
      HashedNext(encode, tree, names[..i], es, digest.fed, names[i]);
      assert names[..i + 1] == names[..i] + [names[i]];
      digest.FeedTree(encode, e);
      es := es + [e];
    }
    assert names[..|names|] == names;
    r := Some(digest.fed);
  }

  method TreeDigest(encode: Encoder, sha: Hasher, tree: Tree) returns (r: Option<string>)
    ensures r.Some? <==> TreeOk(encode, tree)
    ensures r.Some? ==> IsTreeDigest(encode, sha, tree, r.value)
  {
    var names := Sorted(tree.Keys);
    assert forall i :: 0 <= i < |names| ==> names[i] in names;
    var fed, es := FeedAll(encode, tree, names);
    if fed.None? { return None; }
    ListedOk(encode, tree, names, es);
    r := Some(sha(fed.value));
  }

  lemma ListedOk(encode: Encoder, tree: Tree, names: seq<string>, es: seq<Entry>)
    requires (forall n :: n in tree ==> n in names) && Lists(tree, names, es) && AllFit(TREE, encode, es)
    ensures TreeOk(encode, tree)
  {
    forall n | n in tree ensures tree[n].Regular? && Fits(TREE, encode, EntryAt(tree, n)) {
      var i :| 0 <= i < |names| && names[i] == n;
      assert Fits(TREE, encode, es[i]);
    }
  }

  lemma ListsSame(a: Tree, b: Tree, na: seq<string>, nb: seq<string>, es: seq<Entry>)
    requires (forall n :: n in na <==> n in a) && (forall n :: n in nb <==> n in b)
    requires Lists(a, na, es) && Lists(b, nb, es)
    ensures a == b
  {
    forall n | n in a ensures n in b && b[n] == a[n] {
      var i :| 0 <= i < |na| && na[i] == n;
      assert nb[i] == n && nb[i] in nb;
    }
    forall n | n in b ensures n in a {
      var i :| 0 <= i < |nb| && nb[i] == n;
      assert na[i] == n && na[i] in na;
    }
  }

  /** Two trees have the same digest exactly when they have the same names, executable bits and contents. */
  lemma TreeDigestsAgree(encode: Encoder, sha: Hasher, a: Tree, b: Tree, da: string, db: string)
    requires Injective(encode, sha) && IsTreeDigest(encode, sha, a, da) && IsTreeDigest(encode, sha, b, db)
    ensures da == db <==> a == b
  {
    var na, nb := Sorted(a.Keys), Sorted(b.Keys);
    var ea :| Lists(a, na, ea) && AllFit(TREE, encode, ea) && da == sha(Frames(TREE, encode, ea));
    var eb :| Lists(b, nb, eb) && AllFit(TREE, encode, eb) && db == sha(Frames(TREE, encode, eb));
    if da == db {
      FramesInjective(TREE, encode, sha, ea, eb);
      ListsSame(a, b, na, nb, ea);
    }
    if a == b {
      assert ea == eb;
    }
  }

  // ----- the migration scripts -----

  ghost predicate Ordered(es: seq<Entry>) {
    forall i, j :: 0 <= i < j < |es| ==> Le(es[i].name, es[j].name)
  }

  function Insert(e: Entry, es: seq<Entry>): (r: seq<Entry>)
    ensures multiset(r) == multiset(es) + multiset{e}
  {
    if es == [] || Le(e.name, es[0].name) then [e] + es
    else assert es == [es[0]] + es[1..]; [es[0]] + Insert(e, es[1..])
  }

  /** Python's sort by name, which keeps entries of the same name in the order they came. */
  function StableSort(es: seq<Entry>): (r: seq<Entry>)
    ensures multiset(r) == multiset(es)
  {
    if es == [] then [] else assert es == [es[0]] + es[1..]; Insert(es[0], StableSort(es[1..]))
  }

  lemma {:induction false} InsertOrdered(e: Entry, es: seq<Entry>)
    requires Ordered(es)
    ensures Ordered(Insert(e, es))
  {
    if es == [] {
    } else if Le(e.name, es[0].name) {
      forall j | 0 <= j < |es| ensures Le(e.name, es[j].name) {
        if j > 0 { LeTransitive(e.name, es[0].name, es[j].name); }
      }
    } else {
      LeTotal(e.name, es[0].name);
      var rest := Insert(e, es[1..]);
      InsertOrdered(e, es[1..]);
      forall j | 0 <= j < |rest| ensures Le(es[0].name, rest[j].name) {
        assert rest[j] in multiset(rest);
        if rest[j] != e {
          var k :| 0 <= k < |es[1..]| && es[1..][k] == rest[j];
          assert es[k + 1] == rest[j];
        }
      }
    }
  }

  lemma {:induction false} SortOrdered(es: seq<Entry>)
    ensures Ordered(StableSort(es))
  {
    if es != [] {
      SortOrdered(es[1..]);
      InsertOrdered(es[0], StableSort(es[1..]));
    }
  }

  /** The entries of one name, in order. */
  function WithName(es: seq<Entry>, n: string): seq<Entry> {
    if es == [] then [] else (if es[0].name == n then [es[0]] else []) + WithName(es[1..], n)
  }

  lemma {:induction false} WithNameConcat(a: seq<Entry>, b: seq<Entry>, n: string)
    ensures WithName(a + b, n) == WithName(a, n) + WithName(b, n)
  {
    if a == [] {
      assert a + b == b;
    } else {
      WithNameConcat(a[1..], b, n);
      WithNameHead(a[0], a[1..], n);
      WithNameHead(a[0], a[1..] + b, n);
      assert a == [a[0]] + a[1..] && a + b == [a[0]] + (a[1..] + b);
    }
  }

  lemma WithNameHead(e: Entry, es: seq<Entry>, n: string)
    ensures WithName([e] + es, n) == (if e.name == n then [e] else []) + WithName(es, n)
  {
    assert ([e] + es)[1..] == es;
  }

  lemma {:induction false} InsertKeepsNames(e: Entry, es: seq<Entry>, n: string)
    ensures WithName(Insert(e, es), n) == (if e.name == n then [e] else []) + WithName(es, n)
  {
    WithNameHead(e, es, n);
    if es != [] && !Le(e.name, es[0].name) {
      LeTotal(e.name, e.name);
      InsertKeepsNames(e, es[1..], n);
      WithNameHead(es[0], Insert(e, es[1..]), n);
    }
  }

  /** Sorting keeps entries of the same name in their order. */
  lemma {:induction false} SortIsStable(es: seq<Entry>, n: string)
    ensures WithName(StableSort(es), n) == WithName(es, n)
  {
    if es != [] {
      SortIsStable(es[1..], n);
      InsertKeepsNames(es[0], StableSort(es[1..]), n);
    }
  }

  /** No two scripts share a name and differ. */
  predicate NoClash(es: seq<Entry>) {
    forall i, j :: 0 <= i < j < |es| && es[i].name == es[j].name ==> es[i] == es[j]
  }

  lemma NoClashMembers(es: seq<Entry>, x: Entry, y: Entry)
    requires NoClash(es) && x in multiset(es) && y in multiset(es) && x.name == y.name
    ensures x == y
  {
    var i :| 0 <= i < |es| && es[i] == x;
    var j :| 0 <= j < |es| && es[j] == y;
  }

  lemma SameHead(a: seq<Entry>, b: seq<Entry>)
    requires Ordered(a) && Ordered(b) && multiset(a) == multiset(b) && NoClash(a) && a != [] && b != []
    ensures a[0] == b[0]
  {
    assert a[0] in multiset(b) && b[0] in multiset(a);
    var k :| 0 <= k < |b| && b[k] == a[0];
    var m :| 0 <= m < |a| && a[m] == b[0];
    LeTotal(a[0].name, b[0].name);
    NoClashMembers(a, a[0], b[0]);
  }

  lemma TailMembers(s: seq<Entry>)
    requires s != []
    ensures multiset(s[1..]) == multiset(s) - multiset{s[0]}
  {
    assert s == [s[0]] + s[1..];
  }

  /** Without clashes, an ordered listing of given scripts is unique. */
  lemma {:induction false} OrderedUnique(a: seq<Entry>, b: seq<Entry>)
    requires Ordered(a) && Ordered(b) && multiset(a) == multiset(b) && NoClash(a)
    ensures a == b
  {
    assert |multiset(a)| == |a| && |multiset(b)| == |b|;
    if a != [] {
      SameHead(a, b);
      TailMembers(a);
      TailMembers(b);
      OrderedUnique(a[1..], b[1..]);
      assert a == [a[0]] + a[1..] && b == [b[0]] + b[1..];
    }
  }

  predicate MigrationOk(encode: Encoder, es: seq<Entry>) {
    es != [] && AllFit(MIGRATION, encode, es)
  }

  function MigrationDigestOf(encode: Encoder, sha: Hasher, es: seq<Entry>): string {
    sha(Frames(MIGRATION, encode, StableSort(es)))
  }

  lemma SortFits(encode: Encoder, es: seq<Entry>)
    ensures AllFit(MIGRATION, encode, StableSort(es)) <==> AllFit(MIGRATION, encode, es)
  {
    var r := StableSort(es);
    forall i | 0 <= i < |es| ensures es[i] in r { assert es[i] in multiset(r); }
    forall i | 0 <= i < |r| ensures r[i] in es { assert r[i] in multiset(es); }
  }

  lemma SortPlain(es: seq<Entry>)
    requires Plain(MIGRATION, es)
    ensures Plain(MIGRATION, StableSort(es))
  {
    var r := StableSort(es);
    forall i | 0 <= i < |r| ensures !r[i].executable { assert r[i] in multiset(es); }
  }

  /** Hash the scripts in the given order, unless a length does not fit its field. */
  method FeedScripts(encode: Encoder, es: seq<Entry>) returns (r: Option<seq<Byte>>)
    ensures r.Some? <==> AllFit(MIGRATION, encode, es)
    ensures r.Some? ==> r.value == Frames(MIGRATION, encode, es)
  {
    var digest := new Hash();
    for i := 0 to |es|
      invariant AllFit(MIGRATION, encode, es[..i])
      invariant digest.fed == Frames(MIGRATION, encode, es[..i])
    {
      if !Fits(MIGRATION, encode, es[i]) { return None; }
      digest.FeedMigration(encode, es[i]);
      FramesSnoc(MIGRATION, encode, es[..i], es[i]);
      assert es[..i + 1] == es[..i] + [es[i]];
    }
    assert es[..|es|] == es;
    r := Some(digest.fed);
  }

  /** Hash the scripts in name order; fails without scripts and for a length that does not fit its field. */
  method MigrationDigest(encode: Encoder, sha: Hasher, es: seq<Entry>) returns (r: Option<string>)
    ensures r.Some? <==> MigrationOk(encode, es)
    ensures r.Some? ==> r.value == MigrationDigestOf(encode, sha, es)
  {
    if es == [] { return None; }
    SortFits(encode, es);
    var fed := FeedScripts(encode, StableSort(es));
    if fed.None? { return None; }
    r := Some(sha(fed.value));
  }

  lemma SameDigestSameSort(encode: Encoder, sha: Hasher, p: seq<Entry>, q: seq<Entry>)
    requires Injective(encode, sha) && AllFit(MIGRATION, encode, p) && AllFit(MIGRATION, encode, q)
    requires Plain(MIGRATION, p) && Plain(MIGRATION, q)
    requires MigrationDigestOf(encode, sha, p) == MigrationDigestOf(encode, sha, q)
    ensures StableSort(p) == StableSort(q)
  {
    SortFits(encode, p);
    SortFits(encode, q);
    SortPlain(p);
    SortPlain(q);
    FramesInjective(MIGRATION, encode, sha, StableSort(p), StableSort(q));
  }

  /** Equal digests mean the same scripts, however they were discovered. */
  lemma MigrationDigestDetermines(encode: Encoder, sha: Hasher, p: seq<Entry>, q: seq<Entry>)
    requires Injective(encode, sha) && MigrationOk(encode, p) && MigrationOk(encode, q)
    requires Plain(MIGRATION, p) && Plain(MIGRATION, q)
    requires MigrationDigestOf(encode, sha, p) == MigrationDigestOf(encode, sha, q)
    ensures multiset(p) == multiset(q)
  {
    SameDigestSameSort(encode, sha, p, q);
    assert multiset(p) == multiset(StableSort(p)) == multiset(StableSort(q));
  }

  lemma NameAt(p: seq<Entry>, i: nat)
    requires i < |p|
    ensures var n := p[i].name; var k := |WithName(p[..i], n)|; k < |WithName(p, n)| && WithName(p, n)[k] == p[i]
  {
    var n := p[i].name;
    assert p == p[..i] + p[i..];
    WithNameConcat(p[..i], p[i..], n);
    assert WithName(p[i..], n)[0] == p[i];
  }

  lemma SwapShows(p: seq<Entry>, i: nat, j: nat)
    requires i < j < |p| && p[i].name == p[j].name && p[i] != p[j]
    ensures var q := p[i := p[j]][j := p[i]]; multiset(q) == multiset(p) && StableSort(q) != StableSort(p)
  {
    var q, n := p[i := p[j]][j := p[i]], p[i].name;
    SortIsStable(p, n);
    SortIsStable(q, n);
    assert q[..i] == p[..i];
    NameAt(p, i);
    NameAt(q, i);
  }

  lemma SameMembers(encode: Encoder, p: seq<Entry>, q: seq<Entry>)
    requires multiset(p) == multiset(q) && AllFit(MIGRATION, encode, p) && Plain(MIGRATION, p)
    ensures AllFit(MIGRATION, encode, q) && Plain(MIGRATION, q)
  {
    forall i | 0 <= i < |q| ensures Fits(MIGRATION, encode, q[i]) && !q[i].executable { assert q[i] in multiset(p); }
  }

  ghost predicate OrderIndependent(encode: Encoder, sha: Hasher, p: seq<Entry>) {
    forall q :: multiset(q) == multiset(p) ==> MigrationDigestOf(encode, sha, q) == MigrationDigestOf(encode, sha, p)
  }

  lemma OtherOrderMatters(encode: Encoder, sha: Hasher, p: seq<Entry>, q: seq<Entry>)
    requires Injective(encode, sha) && MigrationOk(encode, p) && Plain(MIGRATION, p)
    requires multiset(q) == multiset(p) && StableSort(q) != StableSort(p)
    ensures !OrderIndependent(encode, sha, p)
  {
    SameMembers(encode, p, q);
    OtherSortOtherDigest(encode, sha, p, q);
  }

  lemma OtherSortOtherDigest(encode: Encoder, sha: Hasher, p: seq<Entry>, q: seq<Entry>)
    requires Injective(encode, sha) && AllFit(MIGRATION, encode, p) && AllFit(MIGRATION, encode, q)
    requires Plain(MIGRATION, p) && Plain(MIGRATION, q) && StableSort(p) != StableSort(q)
    ensures MigrationDigestOf(encode, sha, p) != MigrationDigestOf(encode, sha, q)
  {
    if MigrationDigestOf(encode, sha, p) == MigrationDigestOf(encode, sha, q) { SameDigestSameSort(encode, sha, p, q); }
  }

  lemma SameSort(p: seq<Entry>, q: seq<Entry>)
    requires multiset(q) == multiset(p) && NoClash(p)
    ensures StableSort(q) == StableSort(p)
  {
    SortOrdered(p);
    SortOrdered(q);
    SortNoClash(p);
    OrderedUnique(StableSort(p), StableSort(q));
  }

  /** The digest ignores discovery order exactly when no two scripts of one name differ. */
  lemma OrderIndependentIff(encode: Encoder, sha: Hasher, p: seq<Entry>)
    requires Injective(encode, sha) && MigrationOk(encode, p) && Plain(MIGRATION, p)
    ensures OrderIndependent(encode, sha, p) <==> NoClash(p)
  {
    if NoClash(p) {
      forall q | multiset(q) == multiset(p)
        ensures MigrationDigestOf(encode, sha, q) == MigrationDigestOf(encode, sha, p)
      {
        SameSort(p, q);
      }
    } else {
      var i, j :| 0 <= i < j < |p| && p[i].name == p[j].name && p[i] != p[j];
      SwapShows(p, i, j);
      OtherOrderMatters(encode, sha, p, p[i := p[j]][j := p[i]]);
    }
  }

  lemma SortNoClash(p: seq<Entry>)
    requires NoClash(p)
    ensures NoClash(StableSort(p))
  {
    var r := StableSort(p);
    forall i, j | 0 <= i < j < |r| && r[i].name == r[j].name ensures r[i] == r[j] {
      assert r[i] in multiset(p) && r[j] in multiset(p);
      NoClashMembers(p, r[i], r[j]);
    }
  }
}
