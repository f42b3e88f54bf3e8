/** The state of the `Completed` component and the one update `getEvents`
    makes to it. */
module Completed {
  import opened Formatter

  datatype Option<T> = None | Some(value: T)

  /** A provider or contract binding, set during bootstrap; opaque here. */
  datatype Handle = Unset | Bound(id: nat)

  /** The component's `this.state`. */
  datatype State = State(
    web3: Handle,
    onyx: Handle,
    factory: Handle,
    reContract: Handle,
    tableData: seq<Row>)

  /** The `event.get` callback. It never looks at `error`. When the provider
      fails, `logs` is undefined, `logs.reverse()` throws, and `setState` is not
      reached, so the previous table stands; otherwise the table is replaced by
      the formatted logs in one update. */
  function OnEventsFetched(st: State, error: Option<string>, logs: Option<seq<Log>>, lib: Library): (st': State)
    ensures st'.web3 == st.web3 && st'.onyx == st.onyx
    ensures st'.factory == st.factory && st'.reContract == st.reContract
    ensures logs.None? ==> st'.tableData == st.tableData
    ensures logs.Some? ==>
              && |st'.tableData| == |logs.value|
              && forall i :: 0 <= i < |logs.value| ==>
                   Describes(st'.tableData[i], logs.value[|logs.value| - 1 - i], lib)
  {
    match logs
    case None => st
    case Some(ls) => st.(tableData := FormatLogs(ls, lib))
  }

  /** The new table depends only on the fetched logs: nothing of the previous
      table survives a successful fetch. */
  lemma TableReplacedWholesale(st1: State, st2: State, error: Option<string>, logs: seq<Log>, lib: Library)
    ensures OnEventsFetched(st1, error, Some(logs), lib).tableData
         == OnEventsFetched(st2, error, Some(logs), lib).tableData
  {
  }

  /** Of two completed fetches the later one decides the table. */
  lemma LastFetchWins(st: State, e1: Option<string>, e2: Option<string>, a: seq<Log>, b: seq<Log>, lib: Library)
    ensures OnEventsFetched(OnEventsFetched(st, e1, Some(a), lib), e2, Some(b), lib)
         == OnEventsFetched(st, e2, Some(b), lib)
  {
  }

  /** The `error` argument has no effect on the update. */
  lemma ErrorIgnored(st: State, e1: Option<string>, e2: Option<string>, logs: Option<seq<Log>>, lib: Library)
    ensures OnEventsFetched(st, e1, logs, lib) == OnEventsFetched(st, e2, logs, lib)
  {
  }
}
