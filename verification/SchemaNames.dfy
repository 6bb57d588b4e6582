/**
 The compiler's dictionary is keyed by class names, not by classes. This walk keeps the classes
 apart and shows when each reference still leads to the class that was meant.
 */
module SchemaNames {
  import opened Graph

  /** Classes by identity: the name of each and the classes that its annotations mention, in order. */
  datatype Classes = Classes(name: nat -> string, mentions: nat -> seq<nat>)

  function Edges(c: Classes): nat -> set<nat> {
    (x: nat) => Members(c.mentions(x))
  }

  function NamesOf(c: Classes, classes: set<nat>): set<string> {
    set x | x in classes :: c.name(x)
  }

  /** Every class that this one mentions has an entry for its name. */
  ghost predicate Mentioned(c: Classes, x: nat, defs: map<string, nat>) {
    forall s :: s in c.mentions(x) ==> c.name(s) in defs
  }

  /** Entries stay, and each new one is a reachable class of that name whose mentions have entries too. */
  ghost predicate Grown(c: Classes, before: map<string, nat>, after: map<string, nat>, targets: set<nat>) {
    && before.Keys <= after.Keys
    && (forall n :: n in before ==> after[n] == before[n])
    && (forall t :: t in targets ==> c.name(t) in after)
    && forall n :: n in after && n !in before ==>
         c.name(after[n]) == n && Mentioned(c, after[n], after) && Reaches(Edges(c), targets, after[n])
  }

  lemma GrownThen(
    c: Classes, d0: map<string, nat>, d1: map<string, nat>, d2: map<string, nat>, t1: set<nat>, t2: set<nat>)
    requires Grown(c, d0, d1, t1) && Grown(c, d1, d2, t2)
    ensures Grown(c, d0, d2, t1 + t2)
  {
    forall n | n in d2 && n !in d0
      ensures c.name(d2[n]) == n && Mentioned(c, d2[n], d2) && Reaches(Edges(c), t1 + t2, d2[n])
    {
      if n in d1 { ReachesMore(Edges(c), t1, t1 + t2, d2[n]); } else { ReachesMore(Edges(c), t2, t1 + t2, d2[n]); }
    }
  }

  lemma GrownClass(c: Classes, before: map<string, nat>, after: map<string, nat>, s: nat)
    requires c.name(s) !in before && Grown(c, before[c.name(s) := s], after, Edges(c)(s))
    ensures Grown(c, before, after, {s})
  {
    ReachesStart(Edges(c), {s}, s);
    forall n | n in after && n !in before
      ensures c.name(after[n]) == n && Mentioned(c, after[n], after) && Reaches(Edges(c), {s}, after[n])
    {
      if n != c.name(s) { ReachesThrough(Edges(c), s, after[n]); }
    }
  }

  function Members(xs: seq<nat>): set<nat> {
    set s | s in xs
  }

  lemma MembersSnoc(xs: seq<nat>, i: nat)
    requires i < |xs|
    ensures Members(xs[..i + 1]) == Members(xs[..i]) + {xs[i]}
  {
    assert xs[..i + 1] == xs[..i] + [xs[i]];
  }

  /** A class gets an entry for its name, unless there is one: a second class of a name is only referenced. */
  method Reference(c: Classes, classes: set<nat>, s: nat, defs: map<string, nat>) returns (r: map<string, nat>)
    requires s in classes && Closed(Edges(c), classes)
    ensures Grown(c, defs, r, {s})
    decreases NamesOf(c, classes) - defs.Keys, 0
  {
    r := defs;
    if c.name(s) !in defs {
      assert c.name(s) in NamesOf(c, classes) - defs.Keys;
      r := Define(c, classes, s, defs[c.name(s) := s]);
      GrownClass(c, defs, r, s);
    }
  }

  /** Define what a class mentions, in order. */
  method Define(c: Classes, classes: set<nat>, x: nat, defs: map<string, nat>) returns (r: map<string, nat>)
    requires x in classes && Closed(Edges(c), classes)
    ensures Grown(c, defs, r, Edges(c)(x))
    decreases NamesOf(c, classes) - defs.Keys, 1
  {
    var mentions := c.mentions(x);
    assert Edges(c)(x) == Members(mentions) <= classes;
    r := defs;
    for i := 0 to |mentions|
      invariant Grown(c, defs, r, Members(mentions[..i]))
    {
      ghost var before := r;
      assert mentions[i] in Members(mentions);
      r := Reference(c, classes, mentions[i], r);
      GrownThen(c, defs, before, r, Members(mentions[..i]), {mentions[i]});
      MembersSnoc(mentions, i);
    }
    assert mentions[..|mentions|] == mentions;
  }

  /** The definitions of a document: all that the root's fields lead to, without the entry of the root's name. */
  method Definitions(c: Classes, classes: set<nat>, root: nat) returns (defs: map<string, nat>)
    requires root in classes && Closed(Edges(c), classes)
    ensures AllRight(c, root, defs) <==> NoClash(c, root)
  {
    var raw := Define(c, classes, root, map[]);
    defs := raw - {c.name(root)};
    RightIffNoClash(c, root, raw);
  }

  /** Each class that this one mentions is what its reference leads to. */
  ghost predicate Right(c: Classes, x: nat, defs: map<string, nat>) {
    forall s :: s in c.mentions(x) ==> c.name(s) in defs && defs[c.name(s)] == s
  }

  ghost predicate AllRight(c: Classes, root: nat, defs: map<string, nat>) {
    Right(c, root, defs) && forall n :: n in defs ==> Right(c, defs[n], defs)
  }

  /** No reachable class has the root's name, and no two different ones share a name. */
  ghost predicate NoClash(c: Classes, root: nat) {
    && (forall a :: Reaches(Edges(c), Edges(c)(root), a) ==> c.name(a) != c.name(root))
    && forall a, b ::
         Reaches(Edges(c), Edges(c)(root), a) && Reaches(Edges(c), Edges(c)(root), b) && c.name(a) == c.name(b) ==>
           a == b
  }

  lemma RightOf(c: Classes, root: nat, raw: map<string, nat>, x: nat)
    requires Grown(c, map[], raw, Edges(c)(root)) && NoClash(c, root) && Mentioned(c, x, raw)
    requires x == root || Reaches(Edges(c), Edges(c)(root), x)
    ensures Right(c, x, raw - {c.name(root)})
  {
    forall s | s in c.mentions(x)
      ensures c.name(s) in raw - {c.name(root)} && (raw - {c.name(root)})[c.name(s)] == s
    {
      assert s in Edges(c)(x);
      if x == root { ReachesStart(Edges(c), Edges(c)(root), s); } else { ReachesNext(Edges(c), Edges(c)(root), x, s); }
    }
  }

  lemma ReachedIsDefined(c: Classes, root: nat, raw: map<string, nat>, a: nat)
    requires Grown(c, map[], raw, Edges(c)(root)) && AllRight(c, root, raw - {c.name(root)})
    requires Reaches(Edges(c), Edges(c)(root), a)
    ensures c.name(a) in raw && c.name(a) != c.name(root) && raw[c.name(a)] == a
  {
    var defs := raw - {c.name(root)};
    forall x | x in defs.Values ensures Edges(c)(x) <= defs.Values {
      var n :| n in defs && defs[n] == x;
      assert Right(c, defs[n], defs);
    }
    ClosedContains(Edges(c), Edges(c)(root), defs.Values, a);
    var n :| n in defs && defs[n] == a;
    assert n in raw;
  }

  /** Every reference leads to the class that was meant if and only if no reachable names clash. */
  lemma RightIffNoClash(c: Classes, root: nat, raw: map<string, nat>)
    requires Grown(c, map[], raw, Edges(c)(root))
    ensures AllRight(c, root, raw - {c.name(root)}) <==> NoClash(c, root)
  {
    var defs := raw - {c.name(root)};
    if NoClash(c, root) {
      RightOf(c, root, raw, root);
      forall n | n in defs ensures Right(c, defs[n], defs) { RightOf(c, root, raw, defs[n]); }
    }
    if AllRight(c, root, defs) {
      forall a | Reaches(Edges(c), Edges(c)(root), a)
        ensures c.name(a) in raw && c.name(a) != c.name(root) && raw[c.name(a)] == a
      {
        ReachedIsDefined(c, root, raw, a);
      }
    }
  }
}
