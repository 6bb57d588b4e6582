/**
 Decomposing any call into references and items, and assembling them again in any
 order, gives the call back; and success always means an exact bijection.
 */
module AssemblyRoundTrip {
  import opened Options
  import opened Assembly

  const BATCH: nat := 32

  function EntryOf<P>(call: string, side: Side, index: nat, m: Message<P>): Entry {
    Entry(side, index, m.role, m.finish,
          seq(|m.parts|, p requires 0 <= p < |m.parts| => Listed(Reference(call, side, index, p), m.parts[p].kind)))
  }

  function EntriesOn<P>(call: string, side: Side, messages: seq<Message<P>>): seq<Entry> {
    seq(|messages|, i requires 0 <= i < |messages| => EntryOf(call, side, i, messages[i]))
  }

  /** The manifest of a call: its input messages, then its output messages. */
  function ManifestOf<P>(call: string, h: History<P>): seq<Entry> {
    EntriesOn(call, Input, h.input) + EntriesOn(call, Output, h.output)
  }

  function ItemAt<P>(call: string, side: Side, index: nat, m: Message<P>, p: nat): Item<P>
    requires p < |m.parts|
  {
    Item(Reference(call, side, index, p), m.role, m.finish, m.parts[p])
  }

  function ItemsOn<P>(call: string, side: Side, messages: seq<Message<P>>): seq<Item<P>> {
    if messages == [] then []
    else
      var n := |messages| - 1;
      ItemsOn(call, side, messages[..n])
      + seq(|messages[n].parts|, p requires 0 <= p < |messages[n].parts| => ItemAt(call, side, n, messages[n], p))
  }

  /** The evidence items of a call, side by side, message by message, part by part. */
  function ItemsOf<P>(call: string, h: History<P>): seq<Item<P>> {
    ItemsOn(call, Input, h.input) + ItemsOn(call, Output, h.output)
  }

  ghost predicate IsItem<P>(call: string, side: Side, messages: seq<Message<P>>, x: Item<P>) {
    exists i, p :: 0 <= i < |messages| && 0 <= p < |messages[i].parts| && x == ItemAt(call, side, i, messages[i], p)
  }

  lemma {:induction false} ItemsOnExact<P>(call: string, side: Side, messages: seq<Message<P>>)
    ensures forall x :: x in ItemsOn(call, side, messages) <==> IsItem(call, side, messages, x)
    ensures Distinct(ItemsOn(call, side, messages))
  {
    if messages != [] {
      var n := |messages| - 1;
      var init, last := messages[..n], messages[n];
      ItemsOnExact(call, side, init);
      var front := ItemsOn(call, side, init);
      var back := seq(|last.parts|, p requires 0 <= p < |last.parts| => ItemAt(call, side, n, last, p));
      forall x ensures x in front + back <==> IsItem(call, side, messages, x) {
        if x in front {
          var i, p :| 0 <= i < n && 0 <= p < |init[i].parts| && x == ItemAt(call, side, i, init[i], p);
          assert x == ItemAt(call, side, i, messages[i], p);
        }
        if x in back {
          var p :| 0 <= p < |back| && back[p] == x;
          assert x == ItemAt(call, side, n, messages[n], p);
        }
        if IsItem(call, side, messages, x) {
          var i, p :| 0 <= i < |messages| && 0 <= p < |messages[i].parts| && x == ItemAt(call, side, i, messages[i], p);
          if i == n {
            assert back[p] == x;
          } else {
            assert x == ItemAt(call, side, i, init[i], p);
            assert IsItem(call, side, init, x);
          }
        }
      }
      forall i, j | 0 <= i < j < |front + back| ensures (front + back)[i].reference != (front + back)[j].reference {
        if i < |front| <= j {
          assert front[i] in front && IsItem(call, side, init, front[i]);
          assert (front + back)[j] == back[j - |front|];
        }
      }
    }
  }

  lemma ItemsDistinct<P>(call: string, h: History<P>)
    ensures Distinct(ItemsOf(call, h))
    ensures forall x :: x in ItemsOf(call, h) <==> IsItem(call, Input, h.input, x) || IsItem(call, Output, h.output, x)
  {
    ItemsOnExact(call, Input, h.input);
    ItemsOnExact(call, Output, h.output);
    var front: seq<Item<P>>, back: seq<Item<P>> := ItemsOn(call, Input, h.input), ItemsOn(call, Output, h.output);
    forall i, j | 0 <= i < j < |front + back| ensures (front + back)[i].reference != (front + back)[j].reference {
      if i < |front| <= j {
        assert IsItem(call, Input, h.input, front[i]);
        assert IsItem(call, Output, h.output, back[j - |front|]);
      }
    }
  }

  // ----- any order -----

  lemma {:induction false} DistinctOnce<P>(items: seq<Item<P>>, x: Item<P>)
    requires Distinct(items)
    ensures multiset(items)[x] <= 1
  {
    if items != [] {
      var n := |items| - 1;
      DistinctOnce(items[..n], x);
      assert items == items[..n] + [items[n]];
      if items[n] == x {
        forall y | y in items[..n] ensures y != x {}
        assert x !in items[..n];
      }
    }
  }

  lemma TwicePresent<P>(items: seq<Item<P>>, i: nat, j: nat)
    requires i < j < |items| && items[i] == items[j]
    ensures multiset(items)[items[i]] >= 2
  {
    assert items == items[..i] + [items[i]] + items[i + 1..j] + [items[j]] + items[j + 1..];
  }

  lemma PermutedDistinct<P>(items: seq<Item<P>>, other: seq<Item<P>>)
    requires Distinct(other) && multiset(items) == multiset(other)
    ensures Distinct(items)
  {
    forall i, j | 0 <= i < j < |items| ensures items[i].reference != items[j].reference {
      assert items[i] in multiset(items) && items[j] in multiset(items);
      assert items[i] in other && items[j] in other;
      DistinctOnce(other, items[i]);
      if items[i] == items[j] { TwicePresent(items, i, j); }
    }
  }

  lemma FoundByReference<P>(call: string, h: History<P>, items: seq<Item<P>>, side: Side, i: nat, p: nat)
    requires multiset(items) == multiset(ItemsOf(call, h)) && i < |h.On(side)| && p < |h.On(side)[i].parts|
    ensures Reference(call, side, i, p) in Lookup(items)
    ensures Lookup(items)[Reference(call, side, i, p)] == ItemAt(call, side, i, h.On(side)[i], p)
  {
    var x := ItemAt(call, side, i, h.On(side)[i], p);
    ItemsDistinct(call, h);
    PermutedDistinct(items, ItemsOf(call, h));
    assert IsItem(call, side, h.On(side), x);
    assert x in ItemsOf(call, h) && x in multiset(items);
    var j :| 0 <= j < |items| && items[j] == x;
    LookupDistinct(items, j);
  }

  lemma EntryFound<P>(call: string, h: History<P>, items: seq<Item<P>>, side: Side, i: nat)
    requires multiset(items) == multiset(ItemsOf(call, h)) && i < |h.On(side)|
    ensures var e := EntryOf(call, side, i, h.On(side)[i]);
            && (forall p :: 0 <= p < |e.parts| ==> PartOk(e, p, Lookup(items)))
            && IsBuilt(e, Lookup(items), h.On(side)[i])
  {
    var e := EntryOf(call, side, i, h.On(side)[i]);
    forall p | 0 <= p < |e.parts|
      ensures PartOk(e, p, Lookup(items)) && Lookup(items)[e.parts[p].reference].part == h.On(side)[i].parts[p]
    {
      FoundByReference(call, h, items, side, i, p);
    }
  }

  lemma {:induction false} CountEntries<P>(call: string, side: Side, messages: seq<Message<P>>, n: nat, other: Side)
    requires n <= |messages|
    ensures CountOn(EntriesOn(call, side, messages)[..n], other) == if other == side then n else 0
  {
    if n > 0 {
      CountEntries(call, side, messages, n - 1, other);
      assert EntriesOn(call, side, messages)[..n][..n - 1] == EntriesOn(call, side, messages)[..n - 1];
    }
  }

  lemma {:induction false} CountConcat(a: seq<Entry>, b: seq<Entry>, side: Side)
    ensures CountOn(a + b, side) == CountOn(a, side) + CountOn(b, side)
  {
    if b == [] {
      assert a + b == a;
    } else {
      CountConcat(a, b[..|b| - 1], side);
      assert (a + b)[..|a + b| - 1] == a + b[..|b| - 1];
    }
  }

  /** Entries determine the message they build. */
  lemma BuiltUnique<P>(e: Entry, look: map<Reference, Item<P>>, m: Message<P>, n: Message<P>)
    requires IsBuilt(e, look, m) && IsBuilt(e, look, n)
    ensures m == n
  {
    assert m.parts == n.parts;
  }

  lemma CountManifest<P>(call: string, h: History<P>, side: Side)
    ensures CountOn(ManifestOf(call, h), side) == |h.On(side)|
  {
    var a, b := EntriesOn(call, Input, h.input), EntriesOn(call, Output, h.output);
    CountConcat(a, b, side);
    assert a[..|a|] == a && b[..|b|] == b;
    CountEntries(call, Input, h.input, |a|, side);
    CountEntries(call, Output, h.output, |b|, side);
  }

  /** Whatever the whole manifest assembles to is the call itself. */
  lemma ManifestRebuilds<P>(call: string, h: History<P>, items: seq<Item<P>>, t: History<P>)
    requires multiset(items) == multiset(ItemsOf(call, h)) && Assembled(ManifestOf(call, h), Lookup(items), t)
    ensures t == h
  {
    forall side ensures t.On(side) == h.On(side) {
      CountManifest(call, h, side);
      forall i | 0 <= i < |h.On(side)| ensures t.On(side)[i] == h.On(side)[i] {
        var k := if side.Input? then i else |h.input| + i;
        var e := ManifestOf(call, h)[k];
        assert e == EntryOf(call, side, i, h.On(side)[i]);
        EntryFound(call, h, items, side, i);
        BuiltUnique(e, Lookup(items), t.On(side)[i], h.On(side)[i]);
      }
    }
    assert t.On(Input) == h.On(Input) && t.On(Output) == h.On(Output);
  }

  lemma ManifestOk<P>(call: string, h: History<P>, items: seq<Item<P>>, k: nat)
    requires multiset(items) == multiset(ItemsOf(call, h)) && k < |ManifestOf(call, h)|
    ensures EntryOk(ManifestOf(call, h), k, Lookup(items))
  {
    var a, b := EntriesOn(call, Input, h.input), EntriesOn(call, Output, h.output);
    if k < |a| {
      EntryFound(call, h, items, Input, k);
      assert (a + b)[..k] == a[..k];
      CountEntries(call, Input, h.input, k, Input);
    } else {
      var j := k - |a|;
      EntryFound(call, h, items, Output, j);
      assert (a + b)[..k] == a + b[..j] && a[..|a|] == a;
      CountEntries(call, Input, h.input, |a|, Output);
      CountEntries(call, Output, h.output, j, Output);
      CountConcat(a, b[..j], Output);
    }
  }

  /** Every item of the call, in whatever order, is listed. */
  lemma ItemsListed<P>(call: string, h: History<P>, items: seq<Item<P>>, i: nat)
    requires multiset(items) == multiset(ItemsOf(call, h)) && i < |items|
    ensures IsListed(ManifestOf(call, h), items[i].reference)
  {
    ItemsDistinct(call, h);
    assert items[i] in multiset(items);
    if IsItem(call, Input, h.input, items[i]) {
      ListedOn(call, h, Input, items[i]);
    } else {
      ListedOn(call, h, Output, items[i]);
    }
  }

  lemma ListedOn<P>(call: string, h: History<P>, side: Side, x: Item<P>)
    requires IsItem(call, side, h.On(side), x)
    ensures IsListed(ManifestOf(call, h), x.reference)
  {
    var m, p :| 0 <= m < |h.On(side)| && 0 <= p < |h.On(side)[m].parts| && x == ItemAt(call, side, m, h.On(side)[m], p);
    var k := if side.Input? then m else |h.input| + m;
    assert ManifestOf(call, h)[k] == EntryOf(call, side, m, h.On(side)[m]);
    assert ManifestOf(call, h)[k].parts[p].reference == x.reference;
  }

  /** Decompose, permute, assemble: the identity on every call. */
  method DecomposeThenAssemble<P>(call: string, h: History<P>, items: seq<Item<P>>) returns (r: Option<History<P>>)
    requires multiset(items) == multiset(ItemsOf(call, h))
    ensures r == Some(h)
  {
    ItemsDistinct(call, h);
    PermutedDistinct(items, ItemsOf(call, h));
    forall k | 0 <= k < |ManifestOf(call, h)| ensures EntryOk(ManifestOf(call, h), k, Lookup(items)) {
      ManifestOk(call, h, items, k);
    }
    forall i | 0 <= i < |items| ensures IsListed(ManifestOf(call, h), items[i].reference) {
      ItemsListed(call, h, items, i);
    }
    r := AssembleHistory(ManifestOf(call, h), items);
    ManifestRebuilds(call, h, items, r.value);
  }

  ghost predicate HasItem<P>(items: seq<Item<P>>, ref: Reference) {
    exists i :: 0 <= i < |items| && items[i].reference == ref
  }

  /** Success means that listed references and items correspond one to one. */
  lemma SuccessIsBijection<P>(manifest: seq<Entry>, items: seq<Item<P>>)
    requires Consistent(manifest, items)
    ensures forall k, p :: 0 <= k < |manifest| && 0 <= p < |manifest[k].parts| ==>
              HasItem(items, manifest[k].parts[p].reference)
    ensures forall i :: 0 <= i < |items| ==> IsListed(manifest, items[i].reference)
    ensures forall j, q, k, p ::
              (0 <= j < |manifest| && 0 <= q < |manifest[j].parts| && 0 <= k < |manifest| &&
                0 <= p < |manifest[k].parts| &&
               manifest[j].parts[q].reference == manifest[k].parts[p].reference) ==> j == k && q == p
  {
    var look := Lookup(items);
    forall k, p | 0 <= k < |manifest| && 0 <= p < |manifest[k].parts|
      ensures HasItem(items, manifest[k].parts[p].reference)
    {
      assert EntryOk(manifest, k, look) && PartOk(manifest[k], p, look);
      LookupKeys(items, manifest[k].parts[p].reference);
    }
    forall j, q, k, p | 0 <= j < |manifest| && 0 <= q < |manifest[j].parts| && 0 <= k < |manifest| &&
      0 <= p < |manifest[k].parts| &&
      manifest[j].parts[q].reference == manifest[k].parts[p].reference
      ensures j == k && q == p
    {
      assert EntryOk(manifest, j, look) && EntryOk(manifest, k, look) && PartOk(manifest[j], q, look) &&
             PartOk(manifest[k], p, look);
      if j < k { ListedOnce(manifest, look, j, q, k, p); }
      if k < j { ListedOnce(manifest, look, k, p, j, q); }
    }
  }

  function Fetch<P>(store: map<Reference, Item<P>>, refs: seq<Reference>): seq<Item<P>>
    requires forall ref :: ref in refs ==> ref in store
  {
    seq(|refs|, i requires 0 <= i < |refs| => store[refs[i]])
  }

  ghost predicate Known<P>(store: map<Reference, Item<P>>, refs: seq<Reference>) {
    forall ref :: ref in refs ==> ref in store
  }

  /** A reply holds the requested items, in any order. */
  ghost predicate Replies<P>(store: map<Reference, Item<P>>, batch: seq<Reference>, reply: seq<Item<P>>) {
    Known(store, batch) && multiset(reply) == multiset(Fetch(store, batch))
  }

  lemma RepliesConcat<P>(
    store: map<Reference, Item<P>>, a: seq<Reference>, x: seq<Item<P>>, b: seq<Reference>, y: seq<Item<P>>)
    requires Replies(store, a, x) && Replies(store, b, y)
    ensures Replies(store, a + b, x + y)
  {
    assert Fetch(store, a + b) == Fetch(store, a) + Fetch(store, b);
  }

  /** Reading in batches of 32 references: each reply may be in any order, and together they hold everything. */
  method ReadInBatches<P>(store: map<Reference, Item<P>>, refs: seq<Reference>, read: seq<Reference> -> seq<Item<P>>)
    returns (items: seq<Item<P>>)
    requires Known(store, refs) && forall batch :: Known(store, batch) ==> Replies(store, batch, read(batch))
    ensures Replies(store, refs, items)
  {
    items := [];
    var offset := 0;
    while offset < |refs|
      invariant 0 <= offset <= |refs|
      invariant Replies(store, refs[..offset], items)
    {
      var end := if offset + BATCH <= |refs| then offset + BATCH else |refs|;
      var batch := refs[offset..end];
      assert refs[..end] == refs[..offset] + batch;
      assert Known(store, batch);
      var reply := read(batch);
      assert Replies(store, batch, reply);
      RepliesConcat(store, refs[..offset], items, batch, reply);
      items := items + reply;
      offset := end;
    }
    assert refs[..|refs|] == refs;
  }

  /** The references of a manifest in reading order. */
  function RefsIn(manifest: seq<Entry>): seq<Reference> {
    if manifest == [] then []
    else
      var last := manifest[|manifest| - 1];
      RefsIn(manifest[..|manifest| - 1])
      + seq(|last.parts|, p requires 0 <= p < |last.parts| => last.parts[p].reference)
  }

  function References<P>(items: seq<Item<P>>): seq<Reference> {
    seq(|items|, i requires 0 <= i < |items| => items[i].reference)
  }

  lemma {:induction false} RefsConcat(a: seq<Entry>, b: seq<Entry>)
    ensures RefsIn(a + b) == RefsIn(a) + RefsIn(b)
  {
    if b == [] {
      assert a + b == a;
    } else {
      var n := |b| - 1;
      RefsConcat(a, b[..n]);
      assert (a + b)[..|a + b| - 1] == a + b[..n] && (a + b)[|a + b| - 1] == b[n];
      var tail := seq(|b[n].parts|, p requires 0 <= p < |b[n].parts| => b[n].parts[p].reference);
      assert RefsIn(b) == RefsIn(b[..n]) + tail && RefsIn(a + b) == RefsIn(a + b[..n]) + tail;
    }
  }

  lemma {:induction false} RefsOnSide<P>(call: string, side: Side, messages: seq<Message<P>>)
    ensures RefsIn(EntriesOn(call, side, messages)) == References(ItemsOn(call, side, messages))
  {
    if messages != [] {
      var n := |messages| - 1;
      RefsOnSide(call, side, messages[..n]);
      assert EntriesOn(call, side, messages)[..n] == EntriesOn(call, side, messages[..n]);
    }
  }

  lemma RefsOfCall<P>(call: string, h: History<P>)
    ensures RefsIn(ManifestOf(call, h)) == References(ItemsOf(call, h))
  {
    RefsConcat(EntriesOn(call, Input, h.input), EntriesOn(call, Output, h.output));
    RefsOnSide(call, Input, h.input);
    RefsOnSide(call, Output, h.output);
    ReferencesConcat(ItemsOn(call, Input, h.input), ItemsOn(call, Output, h.output));
  }

  lemma ReferencesConcat<P>(a: seq<Item<P>>, b: seq<Item<P>>)
    ensures References(a + b) == References(a) + References(b)
  {
  }

  /** Read a call's manifest in batches, with replies in any order, and assemble: the call itself comes back. */
  method CaptureThenAssemble<P>(
    call: string, h: History<P>, read: seq<Reference> -> seq<Item<P>>) returns (r: Option<History<P>>)
    requires forall batch :: Known(Lookup(ItemsOf(call, h)), batch) ==>
             Replies(Lookup(ItemsOf(call, h)), batch, read(batch))
    ensures r == Some(h)
  {
    var manifest, store := ManifestOf(call, h), Lookup(ItemsOf(call, h));
    ghost var all := ItemsOf(call, h);
    RefsOfCall(call, h);
    ItemsDistinct(call, h);
    forall i | 0 <= i < |all| ensures all[i].reference in store && store[all[i].reference] == all[i] {
      LookupDistinct(all, i);
    }
    var items := ReadInBatches(store, RefsIn(manifest), read);
    assert Fetch(store, RefsIn(manifest)) == all;
    r := DecomposeThenAssemble(call, h, items);
  }
}
