/**
 * The hooks a descendant uses (src/index.tsx): the lenient ones return
 * `null` outside a provider, the strict ones throw there instead.
 *
 * A context that may be absent is an `Option`: `None` is the `null`
 * default of `React.createContext`, `Some` the provider's value.
 */
module Accessors {
  import opened Wrappers
  import opened Descendants

  /** The error the strict hooks throw when no `DescendantsContextProvider` is around. */
  datatype MissingScope = MissingScope

  /** The strict hooks' `=== null` check: a missing value becomes the error, any other value passes. */
  function RequireScope<T>(value: Option<T>): (r: Result<T, MissingScope>)
    ensures r.Failure? <==> value.None?
    ensures r.Success? ==> value == Some(r.value)
  {
    match value
    case None => Failure(MissingScope)
    case Some(v) => Success(v)
  }

  /** `useMaybeDescendantTotal`: the published total, or `null` outside a provider. */
  function MaybeDescendantTotal(published: Option<nat>): (r: Option<nat>)
    ensures r.None? <==> published.None?
    ensures published.Some? ==> r == Some(published.value)
  {
    published
  }

  /**
   * `useDescendantTotal`: fails exactly when there is no provider, and
   * otherwise gives what the lenient hook gives (0 included).
   */
  function DescendantTotal(published: Option<nat>): (r: Result<nat, MissingScope>)
    ensures r.Failure? <==> MaybeDescendantTotal(published).None?
    ensures r.Success? ==> MaybeDescendantTotal(published) == Some(r.value)
  {
    RequireScope(MaybeDescendantTotal(published))
  }

  /**
   * `useMaybeDescendant(props)` under the id `useId` gave the item:
   * outside a provider `null`, which is not the hidden index -1; inside
   * one, the index `get` returns for this id.
   */
  method MaybeDescendant<P>(context: Option<DescendantRegistry<P>>, id: string, props: Option<Props<P>>)
      returns (index: Option<int>)
    modifies if context.Some? then {context.value} else {}
    ensures index.None? <==> context.None?
    ensures context.Some? ==>
              (context.value.Snapshot(), index.value) == Register(old(context.value.Snapshot()), id, props)
  {
    match context
    case None =>
      index := None;
    case Some(registry) =>
      var i := registry.Get(id, props);
      index := Some(i);
  }

  /**
   * `useDescendant(props)`: fails exactly when there is no provider, and
   * otherwise gives the index the lenient hook gives.
   */
  method Descendant<P>(context: Option<DescendantRegistry<P>>, id: string, props: Option<Props<P>>)
      returns (index: Result<int, MissingScope>)
    modifies if context.Some? then {context.value} else {}
    ensures index.Failure? <==> context.None?
    ensures context.Some? ==>
              (context.value.Snapshot(), index.value) == Register(old(context.value.Snapshot()), id, props)
  {
    var lenient := MaybeDescendant(context, id, props);
    index := RequireScope(lenient);
  }
}
