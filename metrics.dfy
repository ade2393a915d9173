/**
 * Helpers that query the cluster's `metrics.k8s.io/v1beta1` aggregation
 * endpoint: all node usage samples, the pod usage samples of one namespace
 * (optionally narrowed by a label selector), and a fan-out over a list of
 * namespaces that turns every per-namespace failure into data.
 *
 * The remote endpoint is a parameter of type `Server<R>`: it answers one
 * request, and its answer may depend on the requests it has already served.
 * Every operation returns, beside its outcome, the requests it sent, so
 * that "no request before validation", "exactly one request" and "requests
 * in list order" are statements about results.
 */
module Metrics {
  import opened Wrappers

  const MetricsApiGroup := "metrics.k8s.io"
  const MetricsApiVersion := "v1beta1"
  const NodesPlural := "nodes"
  const PodsPlural := "pods"

  /** The message of the `ValueError` raised for a missing namespace. */
  const NamespaceRequired := "namespace parameter is required and cannot be empty"

  /** The `kind` discriminator of the record that stands for a failure. */
  const ErrorKind := "Error"

  /**
   * A call into the custom-objects API: the keyword arguments of
   * `list_cluster_custom_object` or of `list_namespaced_custom_object`.
   * `labelSelector` is `None` when the keyword is not passed at all.
   */
  datatype Request =
    | ClusterList(group: string, version: string, plural: string)
    | NamespacedList(group: string, version: string, namespace: string, plural: string,
                     labelSelector: Option<string>)

  /**
   * The remote endpoint: given the requests it has served so far and a new
   * request, it returns a response or fails with a message.
   */
  type Server<R> = (seq<Request>, Request) -> Result<R>

  /** What one helper call returns, together with the requests it sent. */
  datatype Call<R> = Call(result: Result<R>, issued: seq<Request>)

  /** A namespace argument as Python passes it: `None` or a string. */
  type NamespaceArg = Option<string>

  /** One value of the fan-out's dictionary: a response passed through, or an error record. */
  datatype Entry<R> = Response(body: R) | ErrorRecord(kind: string, error: string)

  /**
   * The fan-out's dictionary: its entries, its keys in insertion order
   * (Python dictionaries iterate in that order), and the requests sent to fill it.
   */
  datatype Aggregate<R> = Aggregate(results: map<NamespaceArg, Entry<R>>, order: seq<NamespaceArg>,
                                    issued: seq<Request>)

  /** Python truthiness of an optional string: neither `None` nor `""`. */
  predicate Truthy(s: Option<string>)
  {
    s.Some? && s.value != ""
  }

  /** The index of the first occurrence of `x` in `s`. */
  function FirstIndex<T(==)>(s: seq<T>, x: T): (r: nat)
    requires x in s
    ensures r < |s| && s[r] == x && x !in s[..r]
  {
    if s[0] == x then 0 else 1 + FirstIndex(s[1..], x)
  }

  /**
   * `order` lists the distinct elements of `namespaces`, each once, in the
   * order of their first occurrence.
   */
  ghost predicate FirstOccurrenceOrder(order: seq<NamespaceArg>, namespaces: seq<NamespaceArg>)
  {
    && (forall x :: x in order <==> x in namespaces)
    && (forall j, k :: 0 <= j < k < |order| ==>
          order[j] in namespaces && order[k] in namespaces &&
          FirstIndex(namespaces, order[j]) < FirstIndex(namespaces, order[k]))
  }

  /** The distinct namespaces of a list. */
  function Elements(namespaces: seq<NamespaceArg>): set<NamespaceArg>
  {
    set ns | ns in namespaces
  }

  /** `get_nodes_metrics`: one cluster-scoped request, answer returned unchanged. */
  function GetNodesMetrics<R>(server: Server<R>, history: seq<Request>): (c: Call<R>)
    ensures c.issued == [ClusterList(MetricsApiGroup, MetricsApiVersion, NodesPlural)]
    ensures c.result == server(history, c.issued[0])
  {
    var request := ClusterList(MetricsApiGroup, MetricsApiVersion, NodesPlural);
    Call(server(history, request), [request])
  }

  /**
   * The validation and argument building of `get_pods_metrics`: a missing
   * or empty namespace is refused; otherwise the namespaced request for
   * `pods`, carrying the selector only when it is neither `None` nor `""`.
   */
  function PodsRequest(namespace: NamespaceArg, labelSelector: Option<string>): (r: Result<Request>)
    ensures r.Err? <==> !Truthy(namespace)
    ensures r.Err? ==> r.error == NamespaceRequired
    ensures r.Ok? ==> r.value.NamespacedList?
                      && r.value.group == MetricsApiGroup
                      && r.value.version == MetricsApiVersion
                      && r.value.plural == PodsPlural
                      && Some(r.value.namespace) == namespace
    ensures r.Ok? ==> (r.value.labelSelector.Some? <==> Truthy(labelSelector))
    ensures r.Ok? && r.value.labelSelector.Some? ==> r.value.labelSelector == labelSelector
  {
    if !Truthy(namespace) then
      Err(NamespaceRequired)
    else
      var selector := if Truthy(labelSelector) then labelSelector else None;
      Ok(NamespacedList(MetricsApiGroup, MetricsApiVersion, namespace.value, PodsPlural, selector))
  }

  /**
   * `get_pods_metrics`: validation first, with no request on failure;
   * otherwise exactly one request, whose answer or failure is returned unchanged.
   */
  function GetPodsMetrics<R>(server: Server<R>, history: seq<Request>,
                             namespace: NamespaceArg, labelSelector: Option<string>): (c: Call<R>)
    ensures !Truthy(namespace) ==> c.result == Err(NamespaceRequired) && c.issued == []
    ensures Truthy(namespace) ==>
              && |c.issued| == 1
              && PodsRequest(namespace, labelSelector) == Ok(c.issued[0])
              && c.result == server(history, c.issued[0])
  {
    match PodsRequest(namespace, labelSelector)
    case Err(message) => Call(Err(message), [])
    case Ok(request) => Call(server(history, request), [request])
  }

  /**
   * The try/except of the fan-out: a success is stored as it is, a failure
   * becomes `{'kind': 'Error', 'error': str(e)}`; nothing is lost either way.
   */
  function EntryOf<R>(outcome: Result<R>): (e: Entry<R>)
    ensures e.ErrorRecord? <==> outcome.Err?
    ensures e.ErrorRecord? ==> e.kind == ErrorKind && e.error == outcome.error
    ensures e.Response? ==> e.body == outcome.value
  {
    match outcome
    case Ok(body) => Response(body)
    case Err(message) => ErrorRecord(ErrorKind, message)
  }

  /**
   * The fan-out as a value: each namespace of the list in turn is queried,
   * the server seeing every request sent before, and its entry overwrites
   * whatever the dictionary held for that key.
   */
  function FanOut<R>(server: Server<R>, history: seq<Request>,
                     namespaces: seq<NamespaceArg>, labelSelector: Option<string>): Aggregate<R>
    decreases |namespaces|
  {
    if namespaces == [] then
      Aggregate(map[], [], [])
    else
      var n := |namespaces| - 1;
      Step(server, history, FanOut(server, history, namespaces[..n], labelSelector), namespaces[n], labelSelector)
  }

  /**
   * One turn of the fan-out loop: query `namespace`, the server having seen
   * the history and the requests of `before`, and store the entry under it.
   * A new key goes to the end of the key order; an existing one keeps its place.
   */
  function Step<R>(server: Server<R>, history: seq<Request>, before: Aggregate<R>,
                   namespace: NamespaceArg, labelSelector: Option<string>): Aggregate<R>
  {
    var call := GetPodsMetrics(server, history + before.issued, namespace, labelSelector);
    var order := if namespace in before.results then before.order else before.order + [namespace];
    Aggregate(before.results[namespace := EntryOf(call.result)], order, before.issued + call.issued)
  }

  /**
   * The requests a list of namespaces gives rise to, whatever the server
   * answers: one pods request per valid namespace, in list order.
   */
  function ValidRequests(namespaces: seq<NamespaceArg>, labelSelector: Option<string>): seq<Request>
  {
    if namespaces == [] then
      []
    else
      var head := match PodsRequest(namespaces[0], labelSelector)
                  case Ok(request) => [request]
                  case Err(_) => [];
      head + ValidRequests(namespaces[1..], labelSelector)
  }

  /**
   * The outcomes of the `get_pods_metrics` calls the fan-out makes, one per
   * element of the list, the server having seen the requests sent before.
   */
  function CallLog<R>(server: Server<R>, history: seq<Request>,
                      namespaces: seq<NamespaceArg>, labelSelector: Option<string>): seq<Call<R>>
    decreases |namespaces|
  {
    if namespaces == [] then
      []
    else
      var n := |namespaces| - 1;
      CallLog(server, history, namespaces[..n], labelSelector)
        + [GetPodsMetrics(server, history + ValidRequests(namespaces[..n], labelSelector),
                          namespaces[n], labelSelector)]
  }

  /**
   * `get_pods_metrics_in_all_namespaces`: loops over the list, calls
   * `get_pods_metrics` for each element with the same server and selector,
   * and stores the answer or the failure under that namespace.
   * `order` is the dictionary's key order; `calls` records what each
   * `get_pods_metrics` call returned.
   */
  method GetPodsMetricsInAllNamespaces<R>(server: Server<R>, history: seq<Request>,
                                          namespaces: seq<NamespaceArg>, labelSelector: Option<string>)
    returns (results: map<NamespaceArg, Entry<R>>, order: seq<NamespaceArg>, issued: seq<Request>,
             ghost calls: seq<Call<R>>)
    ensures results == FanOut(server, history, namespaces, labelSelector).results
    ensures order == FanOut(server, history, namespaces, labelSelector).order
    ensures issued == FanOut(server, history, namespaces, labelSelector).issued
    ensures results.Keys == Elements(namespaces)
    ensures issued == ValidRequests(namespaces, labelSelector)
    ensures FirstOccurrenceOrder(order, namespaces)
    ensures |calls| == |namespaces|
    ensures forall i :: 0 <= i < |namespaces| ==>
              calls[i] == GetPodsMetrics(server, history + ValidRequests(namespaces[..i], labelSelector),
                                         namespaces[i], labelSelector)
  {
    results := map[];
    order := [];
    issued := [];
    calls := [];
    for i := 0 to |namespaces|
      invariant Aggregate(results, order, issued) == FanOut(server, history, namespaces[..i], labelSelector)
      invariant |calls| == i
      invariant calls == CallLog(server, history, namespaces[..i], labelSelector)
    {
      ghost var next := Step(server, history, Aggregate(results, order, issued), namespaces[i], labelSelector);
      assert FanOut(server, history, namespaces[..i + 1], labelSelector) == next by {
        assert namespaces[..i + 1][..i] == namespaces[..i];
      }
      FanOutIssued(server, history, namespaces[..i], labelSelector);
      var ns := namespaces[i];
      var call := GetPodsMetrics(server, history + issued, ns, labelSelector);
      calls := calls + [call];
      if ns !in results {
        order := order + [ns];
      }
      match call.result {
        case Ok(body) =>
          results := results[ns := Response(body)];
        case Err(message) =>
          results := results[ns := ErrorRecord(ErrorKind, message)];
      }
      issued := issued + call.issued;
      assert Aggregate(results, order, issued) == next;
    }
    assert namespaces[..|namespaces|] == namespaces;
    FanOutKeys(server, history, namespaces, labelSelector);
    FanOutIssued(server, history, namespaces, labelSelector);
    FanOutOrder(server, history, namespaces, labelSelector);
    CallLogAt(server, history, namespaces, labelSelector);
  }

  /**
   * The fan-out invokes `get_pods_metrics` once per element, in list order,
   * the i-th time with the i-th namespace and the shared selector.
   */
  lemma {:induction false} CallLogAt<R>(server: Server<R>, history: seq<Request>,
                                        namespaces: seq<NamespaceArg>, labelSelector: Option<string>)
    ensures |CallLog(server, history, namespaces, labelSelector)| == |namespaces|
    ensures forall i :: 0 <= i < |namespaces| ==>
              CallLog(server, history, namespaces, labelSelector)[i]
              == GetPodsMetrics(server, history + ValidRequests(namespaces[..i], labelSelector),
                                namespaces[i], labelSelector)
    decreases |namespaces|
  {
    if namespaces != [] {
      var n := |namespaces| - 1;
      var before := CallLog(server, history, namespaces[..n], labelSelector);
      var log := CallLog(server, history, namespaces, labelSelector);
      var last := GetPodsMetrics(server, history + ValidRequests(namespaces[..n], labelSelector),
                                 namespaces[n], labelSelector);
      assert log == before + [last];
      CallLogAt(server, history, namespaces[..n], labelSelector);
      forall i | 0 <= i < |namespaces|
        ensures log[i] == GetPodsMetrics(server, history + ValidRequests(namespaces[..i], labelSelector),
                                         namespaces[i], labelSelector)
      {
        if i < n {
          assert log[i] == before[i];
          assert namespaces[..n][..i] == namespaces[..i];
          assert namespaces[..n][i] == namespaces[i];
        }
      }
    }
  }

  /** The fan-out's keys are exactly the distinct namespaces of the list. */
  lemma {:induction false} FanOutKeys<R>(server: Server<R>, history: seq<Request>,
                                         namespaces: seq<NamespaceArg>, labelSelector: Option<string>)
    ensures FanOut(server, history, namespaces, labelSelector).results.Keys == Elements(namespaces)
    ensures |FanOut(server, history, namespaces, labelSelector).results| == |Elements(namespaces)|
    decreases |namespaces|
  {
    if namespaces != [] {
      var n := |namespaces| - 1;
      FanOutKeys(server, history, namespaces[..n], labelSelector);
      assert namespaces == namespaces[..n] + [namespaces[n]];
      assert Elements(namespaces) == Elements(namespaces[..n]) + {namespaces[n]};
    }
  }

  /** Any index holding the first occurrence of `x` is the one `FirstIndex` finds. */
  lemma {:induction false} FirstIndexUnique<T>(s: seq<T>, x: T, r: nat)
    requires r < |s| && s[r] == x && x !in s[..r]
    ensures FirstIndex(s, x) == r
    decreases r
  {
    if r > 0 {
      assert s[0] == s[..r][0];
      assert s[1..][..r - 1] == s[..r][1..];
      FirstIndexUnique(s[1..], x, r - 1);
    }
  }

  /** Appending to a list does not move the first occurrence of an element already in it. */
  lemma FirstIndexAppend<T>(prefix: seq<T>, last: T, x: T)
    requires x in prefix
    ensures FirstIndex(prefix + [last], x) == FirstIndex(prefix, x)
  {
    var r := FirstIndex(prefix, x);
    assert (prefix + [last])[..r] == prefix[..r];
    FirstIndexUnique(prefix + [last], x, r);
  }

  /** An element appended to a list that lacks it first occurs at the end. */
  lemma FirstIndexAppendNew<T>(prefix: seq<T>, last: T)
    requires last !in prefix
    ensures FirstIndex(prefix + [last], last) == |prefix|
  {
    assert (prefix + [last])[..|prefix|] == prefix;
    FirstIndexUnique(prefix + [last], last, |prefix|);
  }

  /**
   * Appending one namespace to the list extends its first-occurrence order
   * by that namespace exactly when it is new.
   */
  lemma FirstOccurrenceOrderAppend(order: seq<NamespaceArg>, prefix: seq<NamespaceArg>, last: NamespaceArg)
    requires FirstOccurrenceOrder(order, prefix)
    ensures FirstOccurrenceOrder(if last in prefix then order else order + [last], prefix + [last])
  {
    var namespaces := prefix + [last];
    forall x | x in prefix
      ensures FirstIndex(namespaces, x) == FirstIndex(prefix, x)
    {
      FirstIndexAppend(prefix, last, x);
    }
    if last !in prefix {
      FirstIndexAppendNew(prefix, last);
      var order' := order + [last];
      forall j, k | 0 <= j < k < |order'|
        ensures order'[j] in namespaces && order'[k] in namespaces
        ensures FirstIndex(namespaces, order'[j]) < FirstIndex(namespaces, order'[k])
      {
        assert order'[j] == order[j] && order[j] in prefix;
        if k < |order| {
          assert order'[k] == order[k];
        }
      }
    }
  }

  /**
   * The dictionary's keys iterate in the order of their first occurrence in
   * the list: each namespace once, a later duplicate keeping the key's place.
   */
  lemma {:induction false} FanOutOrder<R>(server: Server<R>, history: seq<Request>,
                                          namespaces: seq<NamespaceArg>, labelSelector: Option<string>)
    ensures FirstOccurrenceOrder(FanOut(server, history, namespaces, labelSelector).order, namespaces)
    decreases |namespaces|
  {
    if namespaces != [] {
      var n := |namespaces| - 1;
      var prefix, last := namespaces[..n], namespaces[n];
      var before := FanOut(server, history, prefix, labelSelector);
      var order := FanOut(server, history, namespaces, labelSelector).order;
      assert order == if last in before.results then before.order else before.order + [last];
      FanOutKeys(server, history, prefix, labelSelector);
      assert last in before.results <==> last in prefix;
      FanOutOrder(server, history, prefix, labelSelector);
      FirstOccurrenceOrderAppend(before.order, prefix, last);
      assert prefix + [last] == namespaces;
    }
  }

  /** The requests of two lists one after the other are those of their concatenation. */
  lemma {:induction false} ValidRequestsAppend(a: seq<NamespaceArg>, b: seq<NamespaceArg>,
                                               labelSelector: Option<string>)
    ensures ValidRequests(a + b, labelSelector)
            == ValidRequests(a, labelSelector) + ValidRequests(b, labelSelector)
    decreases |a|
  {
    if a == [] {
      assert a + b == b;
    } else {
      assert (a + b)[0] == a[0];
      assert (a + b)[1..] == a[1..] + b;
      ValidRequestsAppend(a[1..], b, labelSelector);
    }
  }

  /**
   * A failure does not stop the fan-out: the requests sent are those of
   * every valid namespace, in list order, whatever the server answered.
   */
  lemma {:induction false} FanOutIssued<R>(server: Server<R>, history: seq<Request>,
                                           namespaces: seq<NamespaceArg>, labelSelector: Option<string>)
    ensures FanOut(server, history, namespaces, labelSelector).issued
            == ValidRequests(namespaces, labelSelector)
    decreases |namespaces|
  {
    if namespaces != [] {
      var n := |namespaces| - 1;
      FanOutIssued(server, history, namespaces[..n], labelSelector);
      ValidRequestsAppend(namespaces[..n], [namespaces[n]], labelSelector);
      assert namespaces[..n] + [namespaces[n]] == namespaces;
      assert [namespaces[n]][1..] == [];
    }
  }

  /**
   * When every namespace of the list is valid, one request goes out per
   * element, in list order, each built from that element and the shared selector.
   */
  lemma {:induction false} ValidRequestsAllValid(namespaces: seq<NamespaceArg>,
                                                 labelSelector: Option<string>)
    requires forall i :: 0 <= i < |namespaces| ==> Truthy(namespaces[i])
    ensures |ValidRequests(namespaces, labelSelector)| == |namespaces|
    ensures forall i :: 0 <= i < |namespaces| ==>
              PodsRequest(namespaces[i], labelSelector) == Ok(ValidRequests(namespaces, labelSelector)[i])
    decreases |namespaces|
  {
    if namespaces != [] {
      ValidRequestsAllValid(namespaces[1..], labelSelector);
      var rest := ValidRequests(namespaces[1..], labelSelector);
      var first := PodsRequest(namespaces[0], labelSelector);
      assert ValidRequests(namespaces, labelSelector) == [first.value] + rest;
      forall i | 0 <= i < |namespaces|
        ensures PodsRequest(namespaces[i], labelSelector) == Ok(ValidRequests(namespaces, labelSelector)[i])
      {
        if i > 0 {
          assert namespaces[1..][i - 1] == namespaces[i];
        }
      }
    }
  }

  /**
   * The entry of a namespace is decided by its last occurrence in the list:
   * it is the outcome of the call made for that occurrence, with the
   * server having seen every request sent before it.
   */
  lemma {:induction false} FanOutLastOccurrence<R>(server: Server<R>, history: seq<Request>,
                                                   namespaces: seq<NamespaceArg>,
                                                   labelSelector: Option<string>, i: nat)
    requires i < |namespaces|
    requires forall j :: i < j < |namespaces| ==> namespaces[j] != namespaces[i]
    ensures namespaces[i] in FanOut(server, history, namespaces, labelSelector).results
    ensures FanOut(server, history, namespaces, labelSelector).results[namespaces[i]]
            == EntryOf(GetPodsMetrics(server,
                                      history + FanOut(server, history, namespaces[..i], labelSelector).issued,
                                      namespaces[i], labelSelector).result)
    decreases |namespaces|
  {
    var n := |namespaces| - 1;
    var before := FanOut(server, history, namespaces[..n], labelSelector);
    var after := FanOut(server, history, namespaces, labelSelector);
    assert after == Step(server, history, before, namespaces[n], labelSelector);
    if i < n {
      assert namespaces[..n][..i] == namespaces[..i];
      assert namespaces[..n][i] == namespaces[i] != namespaces[n];
      FanOutLastOccurrence(server, history, namespaces[..n], labelSelector, i);
      assert after.results[namespaces[i]] == before.results[namespaces[i]];
    }
  }

  /**
   * Failure isolation, entry by entry. For the last occurrence of a
   * namespace in the list: an invalid namespace holds the validation error
   * record; a valid one holds the server's answer unchanged, or an error
   * record with the server's message. The server's view at that point is
   * the prior history plus the requests of the valid namespaces before it.
   */
  lemma FanOutEntry<R>(server: Server<R>, history: seq<Request>,
                       namespaces: seq<NamespaceArg>, labelSelector: Option<string>, i: nat)
    requires i < |namespaces|
    requires forall j :: i < j < |namespaces| ==> namespaces[j] != namespaces[i]
    ensures namespaces[i] in FanOut(server, history, namespaces, labelSelector).results
    ensures var e := FanOut(server, history, namespaces, labelSelector).results[namespaces[i]];
            !Truthy(namespaces[i]) ==> e == ErrorRecord(ErrorKind, NamespaceRequired)
    ensures var e := FanOut(server, history, namespaces, labelSelector).results[namespaces[i]];
            var seen := history + ValidRequests(namespaces[..i], labelSelector);
            Truthy(namespaces[i]) ==>
              var answer := server(seen, PodsRequest(namespaces[i], labelSelector).value);
              && (answer.Ok? ==> e == Response(answer.value))
              && (answer.Err? ==> e == ErrorRecord(ErrorKind, answer.error))
  {
    FanOutLastOccurrence(server, history, namespaces, labelSelector, i);
    FanOutIssued(server, history, namespaces[..i], labelSelector);
  }
}
