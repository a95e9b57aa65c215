/**
 Record classification (loader.go, the page callback inside `Loader.Load`):
 every parameter the store returns is turned into a tagged value according to
 its declared type and stored under its name with the path prefix trimmed.
 */
module Records {
  import opened GoStrings

  /** One parameter as the store returns it: name, raw value and declared
      type (`String`, `StringList`, `SecureString`, or whatever else the
      store reports). */
  datatype Parameter = Parameter(name: string, value: string, ptype: string)

  const StringListType: string := "StringList"
  const SecureStringType: string := "SecureString"

  /** The classified value. `List` is the `[]string` the loader stores for a
      `StringList`, `Secret` the `secureString` wrapper for a `SecureString`,
      `Plain` the bare string for every other type. */
  datatype TaggedValue = Plain(text: string) | List(items: seq<string>) | Secret(text: string)

  /** The value stored for one parameter. */
  function Classify(p: Parameter): (tv: TaggedValue)
    ensures p.ptype == StringListType ==>
      && tv.List?
      && |tv.items| >= 1
      && Join(tv.items, ',') == p.value
      && SeparatorFree(tv.items, ',')
    ensures p.ptype == StringListType && ',' !in p.value ==> tv == List([p.value])
    ensures p.ptype == SecureStringType ==> tv == Secret(p.value)
    ensures p.ptype != StringListType && p.ptype != SecureStringType ==> tv == Plain(p.value)
  {
    if p.ptype == StringListType then
      JoinSplit(p.value, ',');
      SplitSeparatorFree(p.value, ',');
      if ',' !in p.value then SplitNoSeparator(p.value, ','); List(Split(p.value, ','))
      else List(Split(p.value, ','))
    else if p.ptype == SecureStringType then Secret(p.value)
    else Plain(p.value)
  }

  /** The fixture's `StringList` value `stdout,stderr` becomes the two
      paths in order. */
  lemma OutputPathsSplit(name: string)
    ensures Classify(Parameter(name, "stdout,stderr", StringListType)) == List(["stdout", "stderr"])
  {
    var parts := ["stdout", "stderr"];
    assert Join(parts, ',') == "stdout,stderr";
    SplitJoin(parts, ',');
  }

  /** The key a parameter is stored under: its name with the prefix trimmed. */
  function RecordKey(p: Parameter, prefix: string): (k: string)
    ensures HasPrefix(p.name, prefix) ==> prefix + k == p.name
    ensures !HasPrefix(p.name, prefix) ==> k == p.name
  {
    TrimPrefix(p.name, prefix)
  }

  /** The map after storing `params` into `pm` one after the other; a later
      parameter with the same key replaces an earlier one. */
  function Collected(pm: map<string, TaggedValue>, params: seq<Parameter>, prefix: string): map<string, TaggedValue>
  {
    if params == [] then pm
    else
      var last := params[|params| - 1];
      Collected(pm, params[..|params| - 1], prefix)[RecordKey(last, prefix) := Classify(last)]
  }

  /** True when no parameter after index `i` has the same key as `params[i]`. */
  predicate LastWithKey(params: seq<Parameter>, i: int, prefix: string)
    requires 0 <= i < |params|
  {
    forall j :: i < j < |params| ==> RecordKey(params[j], prefix) != RecordKey(params[i], prefix)
  }

  /** The page callback: store every parameter of one page into `pm`, and ask
      for another page unless this one is the last. */
  method CollectPage(pm: map<string, TaggedValue>, params: seq<Parameter>, prefix: string, lastPage: bool)
    returns (pm': map<string, TaggedValue>, more: bool)
    ensures pm' == Collected(pm, params, prefix)
    ensures more == !lastPage
  {
    pm' := pm;
    for i := 0 to |params|
      invariant pm' == Collected(pm, params[..i], prefix)
    {
      var p := params[i];
      assert params[..i + 1][..i] == params[..i];
      pm' := pm'[RecordKey(p, prefix) := Classify(p)];
    }
    assert params[..|params|] == params;
    more := !lastPage;
  }

  /** The callback's map holds exactly the old keys and the keys of the page. */
  lemma {:induction false} CollectedKeys(pm: map<string, TaggedValue>, params: seq<Parameter>, prefix: string, k: string)
    ensures k in Collected(pm, params, prefix) <==>
      k in pm || exists i :: 0 <= i < |params| && RecordKey(params[i], prefix) == k
  {
    if params != [] {
      var n := |params| - 1;
      var init := params[..n];
      CollectedKeys(pm, init, prefix, k);
      if exists i :: 0 <= i < |params| && RecordKey(params[i], prefix) == k {
        var i :| 0 <= i < |params| && RecordKey(params[i], prefix) == k;
        if i < n {
          assert init[i] == params[i];
        }
      }
      if exists i :: 0 <= i < |init| && RecordKey(init[i], prefix) == k {
        var i :| 0 <= i < |init| && RecordKey(init[i], prefix) == k;
        assert init[i] == params[i];
      }
    }
  }

  /** Each key of the page holds the value of the last parameter with that key. */
  lemma {:induction false} CollectedLastWins(pm: map<string, TaggedValue>, params: seq<Parameter>, prefix: string, i: int)
    requires 0 <= i < |params| && LastWithKey(params, i, prefix)
    ensures RecordKey(params[i], prefix) in Collected(pm, params, prefix)
    ensures Collected(pm, params, prefix)[RecordKey(params[i], prefix)] == Classify(params[i])
  {
    var n := |params| - 1;
    if i < n {
      var init := params[..n];
      assert LastWithKey(init, i, prefix) by {
        forall j | i < j < |init|
          ensures RecordKey(init[j], prefix) != RecordKey(init[i], prefix)
        {
          assert init[j] == params[j];
        }
      }
      CollectedLastWins(pm, init, prefix, i);
    }
  }

  /** An old entry whose key no parameter of the page has is left untouched. */
  lemma {:induction false} CollectedUntouched(pm: map<string, TaggedValue>, params: seq<Parameter>, prefix: string, k: string)
    requires k in pm
    requires forall i :: 0 <= i < |params| ==> RecordKey(params[i], prefix) != k
    ensures k in Collected(pm, params, prefix) && Collected(pm, params, prefix)[k] == pm[k]
  {
    if params != [] {
      var n := |params| - 1;
      var init := params[..n];
      assert forall i :: 0 <= i < |init| ==> RecordKey(init[i], prefix) != k by {
        forall i | 0 <= i < |init| ensures RecordKey(init[i], prefix) != k {
          assert init[i] == params[i];
        }
      }
      CollectedUntouched(pm, init, prefix, k);
    }
  }
}
