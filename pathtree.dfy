/**
 The path-tree materialiser of `Loader.Load` (loader.go:109-133): the flat
 map from keys to tagged values becomes a tree of nested maps, one level per
 `/`-separated segment of the key.

 In the Go code a nested level is a `map[string]interface{}` and a leaf is
 whatever value the record carried; walking into a slot that already holds a
 leaf is a failed type assertion, which panics. Here the tree is a datatype,
 a panic is `None`, and the root is the map of the top-level keys.
 */
module PathTree {
  import opened GoStrings
  import opened Records
  import opened Wrappers

  datatype Node = Leaf(value: TaggedValue) | Branch(children: map<string, Node>)

  /** The segments of a normalised key, outermost first. */
  type Path = seq<string>

  /** The top-level map `cm`; the root itself is always a branch. */
  type Tree = map<string, Node>

  /** One key of the flat map after normalisation, with its value. */
  type Entry = (Path, TaggedValue)

  // ---------------------------------------------------------------------
  // Key normalisation (loader.go:111-115)
  // ---------------------------------------------------------------------

  /** A key after the second prefix trim and the removal of at most one
      leading `/`. */
  function NormalisedKey(k: string, prefix: string): (r: string)
    ensures var t := TrimPrefix(k, prefix);
      && (HasPrefix(t, "/") ==> t == "/" + r)
      && (!HasPrefix(t, "/") ==> r == t)
  {
    var t := TrimPrefix(k, prefix);
    if HasPrefix(t, "/") then TrimPrefix(t, "/") else t
  }

  /** The segments `ks` a key is inserted under: the `/`-split of its
      normalised form. */
  function Segments(k: string, prefix: string): (ks: Path)
    ensures |ks| >= 1
  {
    Split(NormalisedKey(k, prefix), '/')
  }

  /** The segments are free of `/` and join back to the normalised key. */
  lemma SegmentsJoinBack(k: string, prefix: string)
    ensures Join(Segments(k, prefix), '/') == NormalisedKey(k, prefix)
    ensures SeparatorFree(Segments(k, prefix), '/')
  {
    JoinSplit(NormalisedKey(k, prefix), '/');
    SplitSeparatorFree(NormalisedKey(k, prefix), '/');
  }

  /** Only one leading `/` is removed: `//a` becomes the segments `""` and `a`. */
  lemma DoubleSlashKeepsEmptySegment()
    ensures Segments("//a", "") == ["", "a"]
  {
    assert NormalisedKey("//a", "") == "/a";
    SplitJoin(["", "a"], '/');
    assert Join(["", "a"], '/') == "/a";
  }

  /** The prefix is trimmed once when the record is stored and once more
      here, so a name that repeats the prefix loses it twice: with prefix
      `/app`, the parameter `/app/app/port` ends up under the single segment
      `port`. */
  lemma PrefixTrimmedTwice(v: string, ptype: string)
    ensures RecordKey(Parameter("/app/app/port", v, ptype), "/app") == "/app/port"
    ensures Segments("/app/port", "/app") == ["port"]
  {
    assert HasPrefix("/app/app/port", "/app");
    assert "/app" + "/app/port" == "/app/app/port";
    assert NormalisedKey("/app/port", "/app") == "port";
    SplitNoSeparator("port", '/');
  }

  // ---------------------------------------------------------------------
  // Reading the tree
  // ---------------------------------------------------------------------

  /** The node reached from `n` by following `p`, if any. */
  function Lookup(n: Node, p: Path): Option<Node>
    decreases |p|
  {
    if p == [] then Some(n)
    else match n
      case Leaf(_) => None
      case Branch(c) => if p[0] in c then Lookup(c[p[0]], p[1..]) else None
  }

  /** What sits at a path: nothing, a leaf with its value, or a branch. */
  datatype Probe = Absent | AtLeaf(value: TaggedValue) | AtBranch

  function ProbeAt(n: Node, p: Path): Probe {
    match Lookup(n, p)
    case None => Absent
    case Some(Leaf(v)) => AtLeaf(v)
    case Some(Branch(_)) => AtBranch
  }

  predicate IsLeaf(o: Option<Node>) {
    o.Some? && o.value.Leaf?
  }

  lemma LookupStep(m: Tree, s: string, q: Path)
    ensures Lookup(Branch(m), [s] + q) == if s in m then Lookup(m[s], q) else None
  {
    assert ([s] + q)[0] == s && ([s] + q)[1..] == q;
  }

  /** Nothing but the root can be found in an empty branch. */
  lemma LookupEmpty(q: Path)
    requires q != []
    ensures Lookup(Branch(map[]), q) == None
  {
  }

  /** Two nodes that agree on what sits at every path are equal: a tree is
      determined by its leaves and branches. */
  lemma {:induction false} ProbeExtensional(a: Node, b: Node)
    requires forall p :: ProbeAt(a, p) == ProbeAt(b, p)
    ensures a == b
    decreases a
  {
    assert ProbeAt(a, []) == ProbeAt(b, []);
    if a.Branch? {
      var ca, cb := a.children, b.children;
      forall k | k in ca || k in cb
        ensures k in ca && k in cb && ca[k] == cb[k]
      {
        LookupStep(ca, k, []);
        LookupStep(cb, k, []);
        assert ProbeAt(a, [k] + []) == ProbeAt(b, [k] + []);
        forall q ensures ProbeAt(ca[k], q) == ProbeAt(cb[k], q) {
          LookupStep(ca, k, q);
          LookupStep(cb, k, q);
          assert ProbeAt(a, [k] + q) == ProbeAt(b, [k] + q);
        }
        ProbeExtensional(ca[k], cb[k]);
      }
      assert ca == cb;
    }
  }

  // ---------------------------------------------------------------------
  // Inserting one key (loader.go:116-132)
  // ---------------------------------------------------------------------

  /** Store `v` under `segs`: a one-segment key overwrites its top-level slot;
      a longer key walks down, creating each missing intermediate map, and
      overwrites the slot of its last segment. An intermediate slot that holds
      a leaf makes the Go type assertion panic: `None`. */
  function Insert(m: Tree, segs: Path, v: TaggedValue): (r: Option<Tree>)
    requires |segs| >= 1
    ensures r.Some? ==> r.value.Keys == m.Keys + {segs[0]}
    ensures r.Some? ==> (r.value[segs[0]].Leaf? <==> |segs| == 1)
    ensures |segs| >= 2 && segs[0] in m && m[segs[0]].Leaf? ==> r.None?
    decreases |segs|
  {
    if |segs| == 1 then Some(m[segs[0] := Leaf(v)])
    else if segs[0] in m && m[segs[0]].Leaf? then None
    else
      var child := if segs[0] in m then m[segs[0]].children else map[];
      match Insert(child, segs[1..], v)
      case None => None
      case Some(c) => Some(m[segs[0] := Branch(c)])
  }

  /** The map a walk into slot `s` continues in: the existing one, or a fresh
      empty one. */
  function ChildOf(m: Tree, s: string): Tree
    requires s in m ==> m[s].Branch?
  {
    if s in m then m[s].children else map[]
  }

  /** Some proper prefix of `segs` already holds a leaf. */
  ghost predicate LeafOnWay(m: Tree, segs: Path) {
    exists k :: 1 <= k < |segs| && IsLeaf(Lookup(Branch(m), segs[..k]))
  }

  /** Following `s` then a non-empty `q` from `m` is following `q` from the map
      the walk continues in. */
  lemma LookupThrough(m: Tree, s: string, q: Path)
    requires s in m ==> m[s].Branch?
    requires q != []
    ensures Lookup(Branch(m), [s] + q) == Lookup(Branch(ChildOf(m, s)), q)
  {
    LookupStep(m, s, q);
  }

  /** The insertion panics exactly when a proper prefix of the key already
      holds a leaf. */
  lemma {:induction false} InsertFailsIff(m: Tree, segs: Path, v: TaggedValue)
    requires |segs| >= 1
    ensures Insert(m, segs, v).None? <==> LeafOnWay(m, segs)
    decreases |segs|
  {
    if |segs| > 1 {
      var s, rest := segs[0], segs[1..];
      assert segs[..1] == [s] + [];
      LookupStep(m, s, []);
      if !(s in m && m[s].Leaf?) {
        var child := ChildOf(m, s);
        InsertFailsIff(child, rest, v);
        assert !IsLeaf(Lookup(Branch(m), segs[..1]));
        forall k | 1 <= k < |rest|
          ensures Lookup(Branch(m), segs[..k + 1]) == Lookup(Branch(child), rest[..k])
        {
          assert segs[..k + 1] == [s] + rest[..k];
          LookupThrough(m, s, rest[..k]);
        }
        if LeafOnWay(m, segs) {
          var k :| 1 <= k < |segs| && IsLeaf(Lookup(Branch(m), segs[..k]));
          assert IsLeaf(Lookup(Branch(child), rest[..k - 1]));
        }
        if LeafOnWay(child, rest) {
          var k :| 1 <= k < |rest| && IsLeaf(Lookup(Branch(child), rest[..k]));
          assert IsLeaf(Lookup(Branch(m), segs[..k + 1]));
        }
      }
    }
  }

  /** After a successful insertion the key resolves to the new leaf. */
  lemma {:induction false} InsertFindsValue(m: Tree, segs: Path, v: TaggedValue)
    requires |segs| >= 1 && Insert(m, segs, v).Some?
    ensures Lookup(Branch(Insert(m, segs, v).value), segs) == Some(Leaf(v))
    decreases |segs|
  {
    var s, rest := segs[0], segs[1..];
    var m' := Insert(m, segs, v).value;
    assert segs == [s] + rest;
    LookupStep(m', s, rest);
    if |segs| > 1 {
      InsertFindsValue(ChildOf(m, s), rest, v);
    }
  }

  /** Paths that are neither a prefix nor an extension of the key reach the
      same node as before: the insertion leaves them alone. */
  lemma {:induction false} InsertKeepsUnrelated(m: Tree, segs: Path, v: TaggedValue, p: Path)
    requires |segs| >= 1 && Insert(m, segs, v).Some?
    requires !(p <= segs) && !(segs <= p)
    ensures Lookup(Branch(Insert(m, segs, v).value), p) == Lookup(Branch(m), p)
    decreases |segs|
  {
    var m' := Insert(m, segs, v).value;
    var s, rest := segs[0], segs[1..];
    var t, q := p[0], p[1..];
    assert p == [t] + q && segs == [s] + rest;
    LookupStep(m', t, q);
    LookupStep(m, t, q);
    if t == s {
      assert |segs| > 1 && q != [];
      assert !(q <= rest) && !(rest <= q);
      InsertKeepsUnrelated(ChildOf(m, s), rest, v, q);
      LookupThrough(m, s, q);
    }
  }

  /** Paths that run through the new leaf reach nothing any more. */
  lemma {:induction false} InsertCutsBelow(m: Tree, segs: Path, v: TaggedValue, p: Path)
    requires |segs| >= 1 && Insert(m, segs, v).Some?
    requires segs < p
    ensures Lookup(Branch(Insert(m, segs, v).value), p) == None
    decreases |segs|
  {
    var m' := Insert(m, segs, v).value;
    var s, rest, q := segs[0], segs[1..], p[1..];
    assert p == [s] + q && segs == [s] + rest;
    LookupStep(m', s, q);
    if |segs| > 1 {
      InsertCutsBelow(ChildOf(m, s), rest, v, q);
    }
  }

  /** `c2` is `c1` with the slot `s` added or replaced and every other slot
      untouched. */
  predicate Extends(c1: Tree, c2: Tree, s: string) {
    && c2.Keys == c1.Keys + {s}
    && forall k :: k in c1 && k != s ==> c2[k] == c1[k]
  }

  /** Every proper prefix of the key ends on a branch afterwards. An
      intermediate branch that existed is reused: it keeps all its other
      slots and gains or replaces only the next segment's slot. One that did
      not exist is a new branch with that single slot. */
  lemma {:induction false} InsertReusesBranches(m: Tree, segs: Path, v: TaggedValue, p: Path)
    requires |segs| >= 1 && Insert(m, segs, v).Some?
    requires p < segs
    ensures var after := Lookup(Branch(Insert(m, segs, v).value), p);
      && after.Some? && after.value.Branch?
      && (Lookup(Branch(m), p) == None ==> Extends(map[], after.value.children, segs[|p|]))
      && (Lookup(Branch(m), p).Some? && Lookup(Branch(m), p).value.Branch? ==>
            Extends(Lookup(Branch(m), p).value.children, after.value.children, segs[|p|]))
    decreases |segs|
  {
    var m' := Insert(m, segs, v).value;
    var s, rest := segs[0], segs[1..];
    if p != [] {
      var q := p[1..];
      assert p == [s] + q && segs == [s] + rest;
      assert |segs| > 1 && q < rest;
      var child := ChildOf(m, s);
      LookupStep(m', s, q);
      LookupStep(m, s, q);
      InsertReusesBranches(child, rest, v, q);
      if q == [] {
        assert Lookup(Branch(child), q) == Some(Branch(child));
      } else {
        LookupThrough(m, s, q);
      }
      assert segs[|p|] == rest[|q|];
    }
  }

  /** What sits at every path after a successful insertion. */
  lemma InsertProbe(m: Tree, segs: Path, v: TaggedValue, p: Path)
    requires |segs| >= 1 && Insert(m, segs, v).Some?
    ensures ProbeAt(Branch(Insert(m, segs, v).value), p) ==
      if p == segs then AtLeaf(v)
      else if p < segs then AtBranch
      else if segs < p then Absent
      else ProbeAt(Branch(m), p)
  {
    if p == segs {
      InsertFindsValue(m, segs, v);
    } else if p < segs {
      InsertReusesBranches(m, segs, v, p);
    } else if segs < p {
      InsertCutsBelow(m, segs, v, p);
    } else {
      InsertKeepsUnrelated(m, segs, v, p);
    }
  }

  // ---------------------------------------------------------------------
  // Inserting every key (loader.go:109-133)
  // ---------------------------------------------------------------------

  predicate AllNonEmpty(es: seq<Entry>) {
    forall i :: 0 <= i < |es| ==> |es[i].0| >= 1
  }

  /** The top-level map after inserting `es` in order into an empty one, or
      `None` if some insertion panics. */
  function InsertAll(es: seq<Entry>): Option<Tree>
    requires AllNonEmpty(es)
  {
    if es == [] then Some(map[])
    else
      var last := es[|es| - 1];
      match InsertAll(es[..|es| - 1])
      case None => None
      case Some(t) => Insert(t, last.0, last.1)
  }

  function EntrySetOf(es: seq<Entry>): set<Entry> {
    set e | e in es
  }

  /** No key is a prefix of a different key (a key is a prefix of itself, so
      two different values under one key conflict too). */
  ghost predicate NonConflicting(s: set<Entry>) {
    forall x, y :: x in s && y in s && x != y ==> !(x.0 <= y.0)
  }

  /** What the tree built from a non-conflicting set of keys holds at `p`,
      stated without any order: the leaf of the key equal to `p`, a branch if
      `p` is the root or a proper prefix of some key, nothing otherwise. */
  ghost function Expected(s: set<Entry>, p: Path): Probe {
    if exists e :: e in s && e.0 == p then
      var e :| e in s && e.0 == p; AtLeaf(e.1)
    else if p == [] || exists e :: e in s && p < e.0 then AtBranch
    else Absent
  }

  lemma PrefixTransitive(a: Path, b: Path, c: Path)
    ensures a <= b && b <= c ==> a <= c
  {
    if a <= b && b <= c {
      assert c[..|a|] == c[..|b|][..|a|];
    }
  }

  /** Under no conflict, at most one entry sits at each path. */
  lemma UniqueAt(s: set<Entry>, p: Path)
    requires NonConflicting(s)
    ensures forall x, y :: x in s && y in s && x.0 == p && y.0 == p ==> x == y
  {
  }

  /** The new key itself now holds its value. */
  lemma ExpectedAtKey(s0: set<Entry>, e: Entry)
    requires NonConflicting(s0 + {e})
    ensures Expected(s0 + {e}, e.0) == AtLeaf(e.1)
  {
    UniqueAt(s0 + {e}, e.0);
  }

  /** A proper prefix of the new key is a branch. */
  lemma ExpectedAbove(s0: set<Entry>, e: Entry, p: Path)
    requires NonConflicting(s0 + {e}) && p < e.0
    ensures Expected(s0 + {e}, p) == AtBranch
  {
    var s1 := s0 + {e};
    forall x | x in s1 ensures x.0 != p {
      if x != e {
        assert !(x.0 <= e.0);
      }
    }
  }

  /** Nothing sits below the new key. */
  lemma ExpectedBelow(s0: set<Entry>, e: Entry, p: Path)
    requires NonConflicting(s0 + {e}) && e.0 < p
    ensures Expected(s0 + {e}, p) == Absent
  {
    var s1 := s0 + {e};
    forall x | x in s1 ensures x.0 != p && !(p < x.0) {
      PrefixTransitive(e.0, p, x.0);
    }
  }

  /** Paths unrelated to the new key keep what they had. */
  lemma ExpectedElsewhere(s0: set<Entry>, e: Entry, p: Path)
    requires NonConflicting(s0 + {e})
    requires p != e.0 && !(p < e.0)
    ensures Expected(s0 + {e}, p) == Expected(s0, p)
  {
    var s1 := s0 + {e};
    UniqueAt(s1, p);
    assert forall x :: x in s1 && x.0 == p ==> x in s0;
    assert forall x :: x in s1 && p < x.0 ==> x in s0;
  }

  /** Adding one entry to a non-conflicting set changes `Expected` exactly as
      an insertion changes the tree. */
  lemma ExpectedStep(s0: set<Entry>, e: Entry, p: Path)
    requires NonConflicting(s0 + {e})
    ensures Expected(s0 + {e}, p) ==
      if p == e.0 then AtLeaf(e.1)
      else if p < e.0 then AtBranch
      else if e.0 < p then Absent
      else Expected(s0, p)
  {
    if p == e.0 {
      ExpectedAtKey(s0, e);
    } else if p < e.0 {
      ExpectedAbove(s0, e, p);
    } else if e.0 < p {
      ExpectedBelow(s0, e, p);
    } else {
      ExpectedElsewhere(s0, e, p);
    }
  }

  /** One step of the fold: a tree that matches `Expected` for `s0` accepts a
      non-conflicting new entry and then matches `Expected` for `s0 + {e}`. */
  lemma InsertAllStep(t: Tree, s0: set<Entry>, e: Entry)
    requires |e.0| >= 1 && NonConflicting(s0 + {e})
    requires forall p :: ProbeAt(Branch(t), p) == Expected(s0, p)
    ensures Insert(t, e.0, e.1).Some?
    ensures forall p :: ProbeAt(Branch(Insert(t, e.0, e.1).value), p) == Expected(s0 + {e}, p)
  {
    InsertFailsIff(t, e.0, e.1);
    forall k | 1 <= k < |e.0| ensures !IsLeaf(Lookup(Branch(t), e.0[..k])) {
      var q := e.0[..k];
      assert q <= e.0 && q != e.0;
      assert forall x :: x in s0 ==> x.0 != q;
      assert !Expected(s0, q).AtLeaf?;
      assert !ProbeAt(Branch(t), q).AtLeaf?;
    }
    var t' := Insert(t, e.0, e.1).value;
    forall p ensures ProbeAt(Branch(t'), p) == Expected(s0 + {e}, p) {
      InsertProbe(t, e.0, e.1, p);
      ExpectedStep(s0, e, p);
    }
  }

  /** Inserting a non-conflicting sequence of keys never panics, and the tree
      holds at every path what `Expected` says. */
  lemma {:induction false} InsertAllMatchesExpected(es: seq<Entry>)
    requires AllNonEmpty(es) && NonConflicting(EntrySetOf(es))
    ensures InsertAll(es).Some?
    ensures forall p :: ProbeAt(Branch(InsertAll(es).value), p) == Expected(EntrySetOf(es), p)
  {
    if es == [] {
      forall p ensures ProbeAt(Branch(map[]), p) == Expected({}, p) {
        if p != [] {
          LookupEmpty(p);
        }
      }
    } else {
      var init, e := es[..|es| - 1], es[|es| - 1];
      var s0 := EntrySetOf(init);
      assert EntrySetOf(es) == s0 + {e} by {
        assert es == init + [e];
      }
      assert AllNonEmpty(init) by {
        forall i | 0 <= i < |init| ensures |init[i].0| >= 1 {
          assert init[i] == es[i];
        }
      }
      InsertAllMatchesExpected(init);
      InsertAllStep(InsertAll(init).value, s0, e);
    }
  }

  /** Every key of a non-conflicting sequence resolves to its own value, deep
      keys side by side with shallower siblings. */
  lemma EveryKeyResolves(es: seq<Entry>, i: int)
    requires AllNonEmpty(es) && NonConflicting(EntrySetOf(es))
    requires 0 <= i < |es|
    ensures InsertAll(es).Some?
    ensures Lookup(Branch(InsertAll(es).value), es[i].0) == Some(Leaf(es[i].1))
  {
    InsertAllMatchesExpected(es);
    ResolvesAt(InsertAll(es).value, EntrySetOf(es), es[i]);
  }

  /** A tree that matches the description of a non-conflicting entry set
      holds each entry's value at the entry's path. */
  lemma ResolvesAt(t: Tree, s: set<Entry>, e: Entry)
    requires NonConflicting(s) && e in s
    requires forall p :: ProbeAt(Branch(t), p) == Expected(s, p)
    ensures Lookup(Branch(t), e.0) == Some(Leaf(e.1))
  {
    UniqueAt(s, e.0);
    assert ProbeAt(Branch(t), e.0) == AtLeaf(e.1);
  }

  /** Inserting the same non-conflicting keys in any two orders builds the
      same tree. */
  lemma OrderIndependent(es1: seq<Entry>, es2: seq<Entry>)
    requires AllNonEmpty(es1) && AllNonEmpty(es2)
    requires EntrySetOf(es1) == EntrySetOf(es2) && NonConflicting(EntrySetOf(es1))
    ensures InsertAll(es1).Some? && InsertAll(es1) == InsertAll(es2)
  {
    InsertAllMatchesExpected(es1);
    InsertAllMatchesExpected(es2);
    ProbeExtensional(Branch(InsertAll(es1).value), Branch(InsertAll(es2).value));
  }

  // ---------------------------------------------------------------------
  // The loop over the flat map
  // ---------------------------------------------------------------------

  predicate Distinct(keys: seq<string>) {
    forall i, j :: 0 <= i < j < |keys| ==> keys[i] != keys[j]
  }

  /** The entries for the keys of `pm` visited in `order`. */
  function EntriesOf(pm: map<string, TaggedValue>, order: seq<string>, prefix: string): (es: seq<Entry>)
    requires forall k :: k in order ==> k in pm
    ensures |es| == |order| && AllNonEmpty(es)
    ensures forall i :: 0 <= i < |order| ==> es[i] == (Segments(order[i], prefix), pm[order[i]])
  {
    if order == [] then []
    else
      var last := order[|order| - 1];
      EntriesOf(pm, order[..|order| - 1], prefix) + [(Segments(last, prefix), pm[last])]
  }

  /** The entries of the whole flat map, independent of any order. */
  ghost function EntrySet(pm: map<string, TaggedValue>, prefix: string): set<Entry> {
    set k | k in pm :: (Segments(k, prefix), pm[k])
  }

  /** The condition under which the source's tree building is well defined:
      no two distinct keys of the flat map normalise to segment lists one of
      which is a prefix of the other (equal lists included). */
  ghost predicate DistinctKeyPaths(pm: map<string, TaggedValue>, prefix: string) {
    forall k1, k2 :: k1 in pm && k2 in pm && k1 != k2 ==> !(Segments(k1, prefix) <= Segments(k2, prefix))
  }

  /** The entries visited are entries of the flat map, and all of them once
      every key has been visited. */
  lemma EntriesOfSet(pm: map<string, TaggedValue>, order: seq<string>, prefix: string)
    requires forall k :: k in order ==> k in pm
    ensures EntrySetOf(EntriesOf(pm, order, prefix)) <= EntrySet(pm, prefix)
    ensures (forall k :: k in pm ==> k in order) ==> EntrySetOf(EntriesOf(pm, order, prefix)) == EntrySet(pm, prefix)
  {
    var es := EntriesOf(pm, order, prefix);
    forall e | e in es ensures e in EntrySet(pm, prefix) {
      var i :| 0 <= i < |es| && es[i] == e;
      assert order[i] in pm;
    }
    if forall k :: k in pm ==> k in order {
      forall e | e in EntrySet(pm, prefix) ensures e in es {
        var k :| k in pm && e == (Segments(k, prefix), pm[k]);
        var i :| 0 <= i < |order| && order[i] == k;
        assert es[i] == e;
      }
    }
  }

  /** For every visiting order of a flat map whose keys do not conflict, the
      tree built is the same, and it holds at every path what `Expected` says
      for the map's entries. */
  lemma {:induction false} BuildCanonical(pm: map<string, TaggedValue>, order: seq<string>, prefix: string)
    requires DistinctKeyPaths(pm, prefix)
    requires forall k :: k in order ==> k in pm
    ensures InsertAll(EntriesOf(pm, order, prefix)).Some?
    ensures (forall k :: k in pm ==> k in order) ==>
      forall p :: ProbeAt(Branch(InsertAll(EntriesOf(pm, order, prefix)).value), p) == Expected(EntrySet(pm, prefix), p)
  {
    var es := EntriesOf(pm, order, prefix);
    EntriesOfSet(pm, order, prefix);
    NonConflictingSubset(pm, prefix, EntrySetOf(es));
    InsertAllMatchesExpected(es);
  }

  /** Entries drawn from a flat map with distinct key paths do not conflict. */
  lemma NonConflictingSubset(pm: map<string, TaggedValue>, prefix: string, s: set<Entry>)
    requires DistinctKeyPaths(pm, prefix)
    requires s <= EntrySet(pm, prefix)
    ensures NonConflicting(s)
  {
    forall x, y | x in s && y in s && x != y ensures !(x.0 <= y.0) {
      var k1 :| k1 in pm && x == (Segments(k1, prefix), pm[k1]);
      var k2 :| k2 in pm && y == (Segments(k2, prefix), pm[k2]);
    }
  }

  lemma DistinctSnoc(keys: seq<string>, k: string)
    requires Distinct(keys) && k !in keys
    ensures Distinct(keys + [k])
  {
  }

  /** The statements of loader.go:111-115 that turn a key of the flat map
      into its segments, in the imperative form `BuildTree` runs them;
      `NormalisedKey` and `Segments` are the same steps as functions, for
      use in contracts and lemmas. */
  method SplitKey(k: string, prefix: string) returns (ks: Path)
    ensures ks == Segments(k, prefix)
  {
    var key := TrimPrefix(k, prefix);
    if HasPrefix(key, "/") {
      key := TrimPrefix(key, "/");
    }
    ks := Split(key, '/');
  }

  /** Visiting one more key inserts its entry into the tree built so far. */
  lemma InsertAllSnoc(pm: map<string, TaggedValue>, order: seq<string>, k: string, prefix: string, tree: Tree)
    requires k in pm && forall j :: j in order ==> j in pm
    requires InsertAll(EntriesOf(pm, order, prefix)) == Some(tree)
    ensures InsertAll(EntriesOf(pm, order + [k], prefix)) == Insert(tree, Segments(k, prefix), pm[k])
  {
    assert (order + [k])[..|order|] == order;
  }

  /** The tree-building loop. Go visits the keys of a map in no fixed order;
      here each step picks any key not yet visited, and the ghost `order`
      records the choices. A conflict stops the loop with `None`, as the
      panic stops the Go function. */
  method BuildTree(pm: map<string, TaggedValue>, prefix: string) returns (cm: Option<Tree>, ghost order: seq<string>)
    ensures Distinct(order) && forall k :: k in order ==> k in pm
    ensures cm == InsertAll(EntriesOf(pm, order, prefix))
    ensures cm.Some? ==> forall k :: k in pm ==> k in order
    ensures DistinctKeyPaths(pm, prefix) ==>
      && cm.Some?
      && forall p :: ProbeAt(Branch(cm.value), p) == Expected(EntrySet(pm, prefix), p)
  {
    var tree: Tree := map[];
    var remaining := pm.Keys;
    order := [];
    while remaining != {}
      invariant Distinct(order)
      invariant forall k :: k in order ==> k in pm && k !in remaining
      invariant forall k :: k in pm ==> k in order || k in remaining
      invariant remaining <= pm.Keys
      invariant InsertAll(EntriesOf(pm, order, prefix)) == Some(tree)
      decreases remaining
    {
      var k :| k in remaining;
      var v := pm[k];
      var ks := SplitKey(k, prefix);
      InsertAllSnoc(pm, order, k, prefix, tree);
      DistinctSnoc(order, k);
      order := order + [k];
      remaining := remaining - {k};
      var next := Insert(tree, ks, v);
      if next.None? {
        cm := None;
        BuildResult(pm, order, prefix, cm);
        return;
      }
      tree := next.value;
    }
    cm := Some(tree);
    BuildResult(pm, order, prefix, cm);
  }

  /** What the loop's result means once it stops. */
  lemma BuildResult(pm: map<string, TaggedValue>, order: seq<string>, prefix: string, cm: Option<Tree>)
    requires forall k :: k in order ==> k in pm
    requires cm == InsertAll(EntriesOf(pm, order, prefix))
    requires cm.Some? ==> forall k :: k in pm ==> k in order
    ensures DistinctKeyPaths(pm, prefix) ==>
      && cm.Some?
      && forall p :: ProbeAt(Branch(cm.value), p) == Expected(EntrySet(pm, prefix), p)
  {
    if DistinctKeyPaths(pm, prefix) {
      BuildCanonical(pm, order, prefix);
    }
  }

  /** Two runs of the loop over the same non-conflicting flat map build the
      same tree, whatever order each visits the keys in. */
  lemma BuildTreeOrderIndependent(pm: map<string, TaggedValue>, prefix: string, order1: seq<string>, order2: seq<string>)
    requires DistinctKeyPaths(pm, prefix)
    requires forall k :: k in order1 <==> k in pm
    requires forall k :: k in order2 <==> k in pm
    ensures InsertAll(EntriesOf(pm, order1, prefix)).Some?
    ensures InsertAll(EntriesOf(pm, order1, prefix)) == InsertAll(EntriesOf(pm, order2, prefix))
  {
    BuildCanonical(pm, order1, prefix);
    BuildCanonical(pm, order2, prefix);
    ProbeExtensional(Branch(InsertAll(EntriesOf(pm, order1, prefix)).value),
                     Branch(InsertAll(EntriesOf(pm, order2, prefix)).value));
  }
}
