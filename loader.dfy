/**
 `Loader.Load` (loader.go:79-147) and `validateConfig` (loader.go:163-172):
 check the destination, collect every page the store returns into the flat
 map, build the tree, and hand the tree and the registered hooks to the
 decoder.

 The store is not called here: its answer, the pages or a failure, is an
 input. The decoder is not modelled either: a successful load ends with the
 tree and the hook list the decoder would be given.
 */
module Loader {
  import opened Records
  import opened PathTree
  import opened DecodeHooks
  import opened Wrappers

  /** What `reflect.ValueOf(config)` tells `validateConfig`: a value that is
      not a pointer (a nil interface has the invalid kind), or a pointer,
      nil or not, with the kind of what it points to. */
  datatype Destination = NonPointer(kind: Kind) | Pointer(isNil: bool, elem: Kind)

  datatype LoadError =
    | KindError           // the destination is not the address of a struct
    | FetchError(cause: string)  // the store's error, passed on unchanged

  /** `validateConfig`: `None` for a non-nil pointer to a struct, `KindError`
      for anything else. */
  function ValidateConfig(config: Destination): (err: Option<LoadError>)
    ensures err == None <==> config.Pointer? && !config.isNil && config.elem == StructKind
    ensures err != None ==> err == Some(KindError)
  {
    if !config.Pointer? then Some(KindError)
    else if config.isNil || config.elem != StructKind then Some(KindError)
    else None
  }

  /** The store's answer to the paginated request. */
  datatype Fetch = Pages(pages: seq<seq<Parameter>>) | FetchFailed(cause: string)

  /** How a load ends: with the tree and hooks handed to the decoder, with an
      error, or with the panic of a leaf/branch conflict. */
  datatype LoadOutcome =
    | ReadyToDecode(tree: Tree, hooks: seq<DecodeHook>)
    | Failed(err: LoadError)
    | Panicked

  /** The flat map after the callback has seen every page in turn. */
  function AllRecords(pages: seq<seq<Parameter>>, prefix: string): map<string, TaggedValue>
  {
    if pages == [] then map[]
    else Collected(AllRecords(pages[..|pages| - 1], prefix), pages[|pages| - 1], prefix)
  }

  /** Every key of a non-conflicting flat map resolves to its own value in
      the tree that `Expected` describes. */
  lemma ExpectedHoldsEachKey(pm: map<string, TaggedValue>, prefix: string, k: string)
    requires DistinctKeyPaths(pm, prefix) && k in pm
    ensures Expected(EntrySet(pm, prefix), Segments(k, prefix)) == AtLeaf(pm[k])
  {
    var s := EntrySet(pm, prefix);
    var e := (Segments(k, prefix), pm[k]);
    assert e in s;
    forall x | x in s && x.0 == e.0 ensures x == e {
      var k2 :| k2 in pm && x == (Segments(k2, prefix), pm[k2]);
      assert k2 == k;
    }
  }

  /** A tree that matches `Expected` for a non-conflicting flat map holds
      every key's own value at the key's segments. */
  lemma TreeHoldsEachKey(pm: map<string, TaggedValue>, prefix: string, t: Tree)
    requires DistinctKeyPaths(pm, prefix)
    requires forall p :: ProbeAt(Branch(t), p) == Expected(EntrySet(pm, prefix), p)
    ensures forall k :: k in pm ==> Lookup(Branch(t), Segments(k, prefix)) == Some(Leaf(pm[k]))
  {
    forall k | k in pm ensures Lookup(Branch(t), Segments(k, prefix)) == Some(Leaf(pm[k])) {
      ExpectedHoldsEachKey(pm, prefix, k);
      assert ProbeAt(Branch(t), Segments(k, prefix)) == AtLeaf(pm[k]);
    }
  }

  /** The paginated fetch with the page callback: the store hands over page
      after page, and stops after the one the callback is told is the last. */
  method CollectAllPages(pages: seq<seq<Parameter>>, prefix: string) returns (pm: map<string, TaggedValue>)
    ensures pm == AllRecords(pages, prefix)
  {
    pm := map[];
    var i, more := 0, true;
    while i < |pages| && more
      invariant 0 <= i <= |pages|
      invariant i < |pages| ==> more
      invariant pm == AllRecords(pages[..i], prefix)
    {
      assert pages[..i + 1][..i] == pages[..i];
      pm, more := CollectPage(pm, pages[i], prefix, i == |pages| - 1);
      i := i + 1;
    }
    assert pages[..i] == pages;
  }

  /** `Loader.Load`. The decoder it configures is given the hooks of the
      process-wide registry `reg`, in registration order. */
  method Load(prefix: string, config: Destination, fetch: Fetch, reg: HookRegistry)
    returns (out: LoadOutcome, ghost order: seq<string>)
    requires reg.Valid()
    ensures out.ReadyToDecode? ==> out.hooks == reg.hooks && out.hooks[0] == StringToTimeDurationHook
    ensures ValidateConfig(config).Some? ==> out == Failed(KindError)
    ensures ValidateConfig(config).None? && fetch.FetchFailed? ==> out == Failed(FetchError(fetch.cause))
    ensures ValidateConfig(config).None? && fetch.Pages? ==>
      var pm := AllRecords(fetch.pages, prefix);
      && Distinct(order)
      && (forall k :: k in order ==> k in pm)
      && (InsertAll(EntriesOf(pm, order, prefix)).None? ==> out == Panicked)
      && (InsertAll(EntriesOf(pm, order, prefix)).Some? ==>
            && out == ReadyToDecode(InsertAll(EntriesOf(pm, order, prefix)).value, reg.hooks)
            && forall k :: k in pm ==> k in order)
    ensures ValidateConfig(config).None? && fetch.Pages? && DistinctKeyPaths(AllRecords(fetch.pages, prefix), prefix) ==>
      var pm := AllRecords(fetch.pages, prefix);
      && out.ReadyToDecode?
      && (forall p :: ProbeAt(Branch(out.tree), p) == Expected(EntrySet(pm, prefix), p))
      && (forall k :: k in pm ==> Lookup(Branch(out.tree), Segments(k, prefix)) == Some(Leaf(pm[k])))
  {
    order := [];
    var err := ValidateConfig(config);
    if err.Some? {
      out := Failed(err.value);
      return;
    }
    if fetch.FetchFailed? {
      out := Failed(FetchError(fetch.cause));
      return;
    }
    var pm := CollectAllPages(fetch.pages, prefix);
    var cm;
    cm, order := BuildTree(pm, prefix);
    if cm.None? {
      out := Panicked;
    } else {
      out := ReadyToDecode(cm.value, reg.hooks);
    }
    if DistinctKeyPaths(pm, prefix) {
      TreeHoldsEachKey(pm, prefix, out.tree);
    }
  }
}
