/**
 The decode hooks of loader.go:27-63: the process-wide registry that the
 decoder composes, seeded at package initialisation with the duration hook
 and only ever appended to, and the environment-expansion hook, which leaves
 `secureString` values alone.

 A hook sees the Go type of the value being decoded, the type of the
 destination field and the value itself. The values this model passes to
 it are the nodes of the materialised tree: a plain string, a
 `secureString`, a `[]string`, or a nested map.
 */
module DecodeHooks {
  import opened Records
  import opened PathTree

  /** The `reflect.Kind`s the model tells apart. */
  datatype Kind = InvalidKind | StringKind | SliceKind | MapKind | StructKind | PtrKind | IntKind | OtherKind

  /** A Go type as `reflect.Type` describes it to a hook: its kind and its
      name (empty for unnamed types such as `[]string`). */
  datatype GoType = GoType(kind: Kind, name: string)

  const SecureStringName: string := "secureString"

  /** The dynamic type of a tree value. */
  function TypeOf(data: Node): (t: GoType)
    ensures t.kind == StringKind <==> data.Leaf? && !data.value.List?
    ensures t.name == SecureStringName <==> data.Leaf? && data.value.Secret?
  {
    match data
    case Leaf(Plain(_)) => GoType(StringKind, "string")
    case Leaf(Secret(_)) => GoType(StringKind, SecureStringName)
    case Leaf(List(_)) => GoType(SliceKind, "")
    case Branch(_) => GoType(MapKind, "")
  }

  datatype HookResult = HookOk(data: Node) | HookError(message: string)

  /** The closure `StringEnvExpandHookFunc` returns. `expand` stands for
      `os.ExpandEnv` over the process environment, which is not modelled;
      the caller (the decoder) always passes the type of `data` as `from`. */
  function EnvExpandHook(expand: string -> string, from: GoType, to: GoType, data: Node): (r: HookResult)
    requires from == TypeOf(data)
    ensures r.HookOk?
    ensures TypeOf(r.data) == TypeOf(data)
    ensures data.Leaf? && data.value.Plain? ==> r.data == Leaf(Plain(expand(data.value.text)))
    ensures !(data.Leaf? && data.value.Plain?) ==> r.data == data
  {
    if from.kind != StringKind || from.name == SecureStringName then HookOk(data)
    else HookOk(Leaf(Plain(expand(data.value.text))))
  }

  /** A secret is never expanded, whatever the environment holds. */
  lemma SecretNeverExpanded(expand: string -> string, to: GoType, text: string)
    ensures EnvExpandHook(expand, TypeOf(Leaf(Secret(text))), to, Leaf(Secret(text))) == HookOk(Leaf(Secret(text)))
  {
  }

  /** The hooks a caller can register. Hooks are functions in Go; here each
      is named by what it is, which is all the registry needs. */
  datatype DecodeHook = StringToTimeDurationHook | StringEnvExpandHook | CustomHook(id: nat)

  /** The package-level `decodeHooks` slice. */
  class HookRegistry {
    var hooks: seq<DecodeHook>

    /** The duration hook is registered first, and stays first. */
    ghost predicate Valid()
      reads this
    {
      |hooks| >= 1 && hooks[0] == StringToTimeDurationHook
    }

    /** Package initialisation (`init`). */
    constructor Init()
      ensures Valid()
      ensures hooks == [StringToTimeDurationHook]
    {
      hooks := [StringToTimeDurationHook];
    }

    /** `RegisterDecodeHook`: append one hook, keeping the earlier ones in
        place and in order. */
    method RegisterDecodeHook(d: DecodeHook)
      requires Valid()
      modifies this
      ensures Valid()
      ensures hooks == old(hooks) + [d]
    {
      hooks := hooks + [d];
    }
  }
}
