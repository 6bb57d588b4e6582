/**
 Reassembling a captured call from its manifest and its evidence items. A
 reference is compared through its canonical encoding, so it stands for itself.
 */
module Assembly {
  import opened Options

  datatype Side = Input | Output

  datatype Reference = Reference(call: string, side: Side, message: nat, part: nat)

  datatype Part<+P> = Part(kind: string, body: P)

  datatype Item<+P> = Item(reference: Reference, role: string, finish: Option<string>, part: Part<P>)

  datatype Listed = Listed(reference: Reference, kind: string)

  datatype Entry = Entry(side: Side, index: nat, role: string, finish: Option<string>, parts: seq<Listed>)

  datatype Message<+P> = Message(role: string, finish: Option<string>, parts: seq<Part<P>>)

  datatype History<P> = History(input: seq<Message<P>>, output: seq<Message<P>>) {
    function On(side: Side): seq<Message<P>> {
      if side.Input? then input else output
    }

    function Add(side: Side, m: Message<P>): History<P> {
      if side.Input? then History(input + [m], output) else History(input, output + [m])
    }
  }

  // ----- specification -----

  ghost predicate Distinct<P>(items: seq<Item<P>>) {
    forall i, j :: 0 <= i < j < |items| ==> items[i].reference != items[j].reference
  }

  /** `by_reference`: a later item replaces an earlier one with the same key. */
  function Lookup<P>(items: seq<Item<P>>): map<Reference, Item<P>> {
    if items == [] then map[]
    else Lookup(items[..|items| - 1])[items[|items| - 1].reference := items[|items| - 1]]
  }

  function CountOn(manifest: seq<Entry>, side: Side): nat {
    if manifest == [] then 0
    else CountOn(manifest[..|manifest| - 1], side) + (if manifest[|manifest| - 1].side == side then 1 else 0)
  }

  /** The listed part is where it says it is, and its item agrees with the manifest. */
  predicate PartOk<P>(e: Entry, p: nat, look: map<Reference, Item<P>>)
    requires p < |e.parts|
  {
    var ref := e.parts[p].reference;
    && ref in look
    && ref.part == p && ref.message == e.index && ref.side == e.side
    && look[ref].role == e.role && look[ref].finish == e.finish && look[ref].part.kind == e.parts[p].kind
  }

  ghost predicate EntryOk<P>(manifest: seq<Entry>, k: nat, look: map<Reference, Item<P>>)
    requires k < |manifest|
  {
    && manifest[k].index == CountOn(manifest[..k], manifest[k].side)
    && forall p :: 0 <= p < |manifest[k].parts| ==> PartOk(manifest[k], p, look)
  }

  ghost predicate IsListed(manifest: seq<Entry>, ref: Reference) {
    exists k, p :: 0 <= k < |manifest| && 0 <= p < |manifest[k].parts| && manifest[k].parts[p].reference == ref
  }

  /** Every listed part has its item in its place, and every item is listed. */
  ghost predicate Consistent<P>(manifest: seq<Entry>, items: seq<Item<P>>) {
    && Distinct(items)
    && (forall k :: 0 <= k < |manifest| ==> EntryOk(manifest, k, Lookup(items)))
    && (forall i :: 0 <= i < |items| ==> IsListed(manifest, items[i].reference))
  }

  /** A message with the manifest's role and finish reason and the bodies that the items carry. */
  ghost predicate IsBuilt<P>(e: Entry, look: map<Reference, Item<P>>, m: Message<P>) {
    && m.role == e.role && m.finish == e.finish && |m.parts| == |e.parts|
    && forall p :: 0 <= p < |e.parts| ==> e.parts[p].reference in look && m.parts[p] == look[e.parts[p].reference].part
  }

  /** Each side has one message per entry of that side, at the entry's index. */
  ghost predicate Assembled<P>(manifest: seq<Entry>, look: map<Reference, Item<P>>, h: History<P>) {
    && (forall side :: |h.On(side)| == CountOn(manifest, side))
    && (forall k :: 0 <= k < |manifest| ==>
          manifest[k].index < |h.On(manifest[k].side)| &&
            IsBuilt(manifest[k], look, h.On(manifest[k].side)[manifest[k].index]))
  }

  lemma {:induction false} LookupDistinct<P>(items: seq<Item<P>>, i: nat)
    requires Distinct(items) && i < |items|
    ensures items[i].reference in Lookup(items) && Lookup(items)[items[i].reference] == items[i]
  {
    if i < |items| - 1 { LookupDistinct(items[..|items| - 1], i); }
  }

  lemma {:induction false} LookupKeys<P>(items: seq<Item<P>>, ref: Reference)
    ensures ref in Lookup(items) <==> exists i :: 0 <= i < |items| && items[i].reference == ref
    ensures ref in Lookup(items) ==> Lookup(items)[ref].reference == ref && Lookup(items)[ref] in items
  {
    if items != [] { LookupKeys(items[..|items| - 1], ref); }
  }

  /** The dictionary is as large as the list exactly when no reference repeats. */
  lemma {:induction false} LookupSize<P>(items: seq<Item<P>>)
    ensures |Lookup(items)| <= |items|
    ensures |Lookup(items)| == |items| <==> Distinct(items)
  {
    if items != [] {
      var n := |items| - 1;
      var init, last := items[..n], items[n];
      LookupSize(init);
      LookupKeys(init, last.reference);
      assert Lookup(items).Keys == Lookup(init).Keys + {last.reference};
      if Distinct(items) {
        assert last.reference !in Lookup(init);
      } else if Distinct(init) {
        var i, j :| 0 <= i < j < |items| && items[i].reference == items[j].reference;
        assert j == n && init[i].reference == last.reference;
      }
    }
  }

  lemma {:induction false} CountGrows(manifest: seq<Entry>, j: nat, k: nat)
    requires j < k <= |manifest|
    ensures CountOn(manifest[..j], manifest[j].side) < CountOn(manifest[..k], manifest[j].side)
  {
    assert manifest[..k][..k - 1] == manifest[..k - 1];
    if j < k - 1 {
      CountGrows(manifest, j, k - 1);
    }
  }

  /** In consistent entries, a reference is listed once. */
  lemma ListedOnce<P>(manifest: seq<Entry>, look: map<Reference, Item<P>>, j: nat, q: nat, k: nat, p: nat)
    requires j < k < |manifest| && q < |manifest[j].parts| && p < |manifest[k].parts|
    requires manifest[j].index == CountOn(manifest[..j], manifest[j].side) && PartOk(manifest[j], q, look)
    requires manifest[k].index == CountOn(manifest[..k], manifest[k].side) && PartOk(manifest[k], p, look)
    ensures manifest[j].parts[q].reference != manifest[k].parts[p].reference
  {
    CountGrows(manifest, j, k);
  }

  // ----- the assembler -----

  /** The references listed by complete entries. */
  ghost predicate SeenIs(manifest: seq<Entry>, k: nat, p: nat, seen: set<Reference>)
    requires k <= |manifest| && (p > 0 ==> k < |manifest| && p <= |manifest[k].parts|)
  {
    forall ref :: ref in seen <==>
      IsListed(manifest[..k], ref) || exists q :: 0 <= q < p && manifest[k].parts[q].reference == ref
  }

  lemma SeenSnoc(manifest: seq<Entry>, k: nat, seen: set<Reference>)
    requires k < |manifest| && SeenIs(manifest, k, |manifest[k].parts|, seen)
    ensures SeenIs(manifest, k + 1, 0, seen)
  {
    forall ref
      ensures IsListed(manifest[..k + 1], ref) <==>
              IsListed(manifest[..k], ref) ||
                exists q :: 0 <= q < |manifest[k].parts| && manifest[k].parts[q].reference == ref
    {
      if IsListed(manifest[..k], ref) {
        var j, q :| 0 <= j < k && 0 <= q < |manifest[..k][j].parts| && manifest[..k][j].parts[q].reference == ref;
        assert manifest[..k + 1][j].parts[q].reference == ref;
      }
      if q :| 0 <= q < |manifest[k].parts| && manifest[k].parts[q].reference == ref {
        assert manifest[..k + 1][k].parts[q].reference == ref;
      }
      if IsListed(manifest[..k + 1], ref) {
        var j, q :| 0 <= j < k + 1 && 0 <= q < |manifest[..k + 1][j].parts| &&
          manifest[..k + 1][j].parts[q].reference == ref;
        if j < k { assert manifest[..k][j].parts[q].reference == ref; }
      }
    }
  }

  lemma FreshKey<P>(manifest: seq<Entry>, look: map<Reference, Item<P>>, k: nat, p: nat, seen: set<Reference>)
    requires k < |manifest| && p < |manifest[k].parts| && SeenIs(manifest, k, p, seen)
    requires forall j :: 0 <= j < k ==> EntryOk(manifest, j, look)
    requires manifest[k].index == CountOn(manifest[..k], manifest[k].side)
    requires forall q :: 0 <= q <= p ==> PartOk(manifest[k], q, look)
    ensures manifest[k].parts[p].reference !in seen
  {
    var ref := manifest[k].parts[p].reference;
    if IsListed(manifest[..k], ref) {
      var j, q :| 0 <= j < k && 0 <= q < |manifest[..k][j].parts| && manifest[..k][j].parts[q].reference == ref;
      assert EntryOk(manifest, j, look);
      ListedOnce(manifest, look, j, q, k, p);
    }
    forall q | 0 <= q < p ensures manifest[k].parts[q].reference != ref {
      assert PartOk(manifest[k], q, look) && PartOk(manifest[k], p, look);
    }
  }

  /** The parts of one manifest entry, or failure at the first that is missing, misplaced or already used. */
  method AssembleParts<P>(manifest: seq<Entry>, k: nat, look: map<Reference, Item<P>>, before: set<Reference>)
    returns (r: Option<seq<Part<P>>>, seen: set<Reference>)
    requires k < |manifest| && SeenIs(manifest, k, 0, before)
    requires forall j :: 0 <= j < k ==> EntryOk(manifest, j, look)
    requires manifest[k].index == CountOn(manifest[..k], manifest[k].side)
    ensures r.Some? <==> EntryOk(manifest, k, look)
    ensures r.Some? ==> IsBuilt(manifest[k], look, Message(manifest[k].role, manifest[k].finish, r.value))
    ensures r.Some? ==> SeenIs(manifest, k + 1, 0, seen)
  {
    var e := manifest[k];
    var parts := [];
    seen := before;
    for p := 0 to |e.parts|
      invariant |parts| == p
      invariant forall q :: 0 <= q < p ==> PartOk(e, q, look) && parts[q] == look[e.parts[q].reference].part
      invariant SeenIs(manifest, k, p, seen)
    {
      var ref := e.parts[p].reference;
      if !PartOk(e, p, look) {
        assert !EntryOk(manifest, k, look);
        return None, seen;
      }
      FreshKey(manifest, look, k, p, seen);
      if ref in seen { return None, seen; }
      seen := seen + {ref};
      parts := parts + [look[ref].part];
    }
    SeenSnoc(manifest, k, seen);
    r := Some(parts);
  }

  lemma AssembledSnoc<P>(manifest: seq<Entry>, k: nat, look: map<Reference, Item<P>>, h: History<P>, m: Message<P>)
    requires k < |manifest| && Assembled(manifest[..k], look, h)
    requires manifest[k].index == |h.On(manifest[k].side)| && IsBuilt(manifest[k], look, m)
    ensures Assembled(manifest[..k + 1], look, h.Add(manifest[k].side, m))
  {
    var longer := manifest[..k + 1];
    var t := h.Add(manifest[k].side, m);
    assert longer[..k] == manifest[..k];
    forall side ensures |t.On(side)| == CountOn(longer, side) { assert |h.On(side)| == CountOn(manifest[..k], side); }
    forall j | 0 <= j < |longer|
      ensures longer[j].index < |t.On(longer[j].side)| &&
              IsBuilt(longer[j], look, t.On(longer[j].side)[longer[j].index])
    {
      if j < k { assert manifest[..k][j] == longer[j]; }
    }
  }

  /** The entries in turn, each at the next index of its side. */
  method AssembleEntries<P>(
    manifest: seq<Entry>, look: map<Reference, Item<P>>) returns (r: Option<History<P>>, seen: set<Reference>)
    ensures r.Some? <==> forall k :: 0 <= k < |manifest| ==> EntryOk(manifest, k, look)
    ensures r.Some? ==> Assembled(manifest, look, r.value) && SeenIs(manifest, |manifest|, 0, seen)
  {
    var history := History([], []);
    seen := {};
    for k := 0 to |manifest|
      invariant forall j :: 0 <= j < k ==> EntryOk(manifest, j, look)
      invariant Assembled(manifest[..k], look, history)
      invariant SeenIs(manifest, k, 0, seen)
    {
      var e := manifest[k];
      if e.index != |history.On(e.side)| {
        assert !EntryOk(manifest, k, look);
        return None, seen;
      }
      var parts;
      parts, seen := AssembleParts(manifest, k, look, seen);
      if parts.None? { return None, seen; }
      var message := Message(e.role, e.finish, parts.value);
      AssembledSnoc(manifest, k, look, history, message);
      history := history.Add(e.side, message);
    }
    assert manifest[..|manifest|] == manifest;
    r := Some(history);
  }

  /** Rebuild both message lists, or fail if anything is missing, misplaced, repeated or left over. */
  method AssembleHistory<P>(manifest: seq<Entry>, items: seq<Item<P>>) returns (r: Option<History<P>>)
    ensures r.Some? <==> Consistent(manifest, items)
    ensures r.Some? ==> Assembled(manifest, Lookup(items), r.value)
  {
    var look := Lookup(items);
    LookupSize(items);
    if |look| != |items| { return None; }
    var seen;
    r, seen := AssembleEntries(manifest, look);
    if r.Some? {
      LeftOver(manifest, items, seen);
      if seen != look.Keys { r := None; }
    }
  }

  /** Nothing is left over exactly when every item is listed. */
  lemma LeftOver<P>(manifest: seq<Entry>, items: seq<Item<P>>, seen: set<Reference>)
    requires SeenIs(manifest, |manifest|, 0, seen) && forall k :: 0 <= k < |manifest| ==>
             EntryOk(manifest, k, Lookup(items))
    ensures seen == Lookup(items).Keys <==> forall i :: 0 <= i < |items| ==> IsListed(manifest, items[i].reference)
  {
    assert manifest[..|manifest|] == manifest;
    forall ref ensures ref in Lookup(items) <==> exists i :: 0 <= i < |items| && items[i].reference == ref {
      LookupKeys(items, ref);
    }
    forall ref | ref in seen ensures ref in Lookup(items) {
      var k, p :| 0 <= k < |manifest| && 0 <= p < |manifest[k].parts| && manifest[k].parts[p].reference == ref;
      assert EntryOk(manifest, k, Lookup(items)) && PartOk(manifest[k], p, Lookup(items));
    }
    if forall i :: 0 <= i < |items| ==> IsListed(manifest, items[i].reference) {
      assert forall ref :: ref in Lookup(items) ==> ref in seen;
    }
    if seen == Lookup(items).Keys {
      forall i | 0 <= i < |items| ensures IsListed(manifest, items[i].reference) { assert items[i].reference in seen; }
    }
  }
}
