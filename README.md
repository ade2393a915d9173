# Kubernetes metrics helpers, modelled in Dafny

This project models `kubernetes/utils/metrics.py` of the Kubernetes Python
client. The module holds three helpers over the cluster's
`metrics.k8s.io/v1beta1` aggregation endpoint:

- `get_nodes_metrics` lists the usage samples of all nodes with one
  cluster-scoped request. It returns the answer unchanged.
- `get_pods_metrics` first refuses a namespace that is `None` or `""`, raising
  `ValueError("namespace parameter is required and cannot be empty")`. It
  then lists the pods of that namespace with one namespaced request. The
  `label_selector` keyword is passed only when the selector is truthy.
- `get_pods_metrics_in_all_namespaces` calls `get_pods_metrics` for each
  namespace of a list, in order. It stores each answer, or an error record
  `{'kind': 'Error', 'error': str(e)}`, under that namespace's key. No
  per-namespace failure escapes the loop.

How the model is built:

- `wrappers.dfy` (module `Wrappers`) defines `Option` (Python `None` or a
  value) and `Result` (a value, or a failure with its message).
- `metrics.dfy` (module `Metrics`) defines the request datatype, the three
  helpers, a functional statement of the fan-out (`FanOut` built from one
  loop turn `Step`, `ValidRequests`, `CallLog`) and the lemmas about them.
- `scenarios.dfy` (module `MetricsScenarios`) works three concrete cases
  drawn from the unit tests and from the duplicate-namespace case.

The remote endpoint is a parameter `Server<R>`. It is a function from the
requests already served and a new request to a `Result<R>`. Its answer may
depend on earlier requests, as a mocked client with a list of successive
answers does. Each helper returns its outcome together with the requests it
sent. This makes "no request when validation fails", "exactly one request"
and "requests in list order" statements about results. Responses are opaque
(type parameter `R`): the module passes them through and never reads them.

The fan-out is a method with a `for` loop and a `match` standing for the
try/except. It is proved equal to the recursive function `FanOut`. The keys,
their order, the requests sent and the value under each key are then proved
about `FanOut`.

`if label_selector:` (kubernetes/utils/metrics.py:149) treats `""` like
`None`: no `label_selector` keyword is passed for either, so a caller cannot
send an empty selector. `PodsRequest` does the same.

The fan-out returns a Python dictionary, which iterates its keys in
insertion order. The model returns that order beside the map: each
namespace once, in the order of its first occurrence in the list. A later
duplicate overwrites the value and keeps the key's place.

## Model

| member | source | states |
|---|---|---|
| `Metrics.GetNodesMetrics` | kubernetes/utils/metrics.py:70-75 | exactly one request is sent: a cluster-scoped list of group `metrics.k8s.io`, version `v1beta1`, plural `nodes`; the server's answer or failure is returned unchanged |
| `Metrics.PodsRequest` | kubernetes/utils/metrics.py:137-150 | fails with the "namespace parameter is required and cannot be empty" message exactly when the namespace is `None` or `""`; otherwise builds a namespaced pods request of group `metrics.k8s.io`, version `v1beta1`, with the namespace as given; the selector is present exactly when it is truthy, and then equals the caller's string |
| `Metrics.GetPodsMetrics` | kubernetes/utils/metrics.py:137-152 | an invalid namespace yields the validation error and sends no request; a valid one sends exactly the request `PodsRequest` builds and returns the server's answer or failure unchanged |
| `Metrics.EntryOf` | kubernetes/utils/metrics.py:201-207 | a success is stored as the response itself; a failure becomes a record of kind `Error` carrying the failure's message; the entry is an error record exactly when the outcome was a failure |
| `Metrics.GetPodsMetricsInAllNamespaces` | kubernetes/utils/metrics.py:198-209 | the loop's dictionary, key order and request log equal those of `FanOut`; the keys are exactly the distinct namespaces of the list, iterating in first-occurrence order; the requests sent are `ValidRequests` of the list; the i-th `get_pods_metrics` call made by the loop is the one for the i-th element with the shared selector, the server having seen the requests of the valid namespaces before it |
| `Metrics.CallLogAt` | kubernetes/utils/metrics.py:200-202 | the fan-out invokes `get_pods_metrics` once per list element, in list order, the i-th time with the i-th namespace and the shared selector, the server having seen the requests of the valid namespaces before it |
| `Metrics.FanOutKeys` | kubernetes/utils/metrics.py:198-209 | the result's keys are exactly the distinct namespaces of the list, so its size is their number; an empty list gives an empty map |
| `Metrics.FanOutOrder` | kubernetes/utils/metrics.py:198-207 | the dictionary's key order holds exactly the namespaces of the list, each once, in the order of their first occurrence; a later duplicate keeps the key's place |
| `Metrics.FanOutIssued` | kubernetes/utils/metrics.py:200-207 | the requests sent do not depend on the server's answers: one pods request per valid namespace, in list order, none for an invalid one; a failure never stops later namespaces from being queried |
| `Metrics.ValidRequestsAllValid` | kubernetes/utils/metrics.py:200-202 | when every namespace is valid, exactly one request per element goes out, the i-th being the pods request of the i-th namespace with the shared selector |
| `Metrics.FanOutLastOccurrence` | kubernetes/utils/metrics.py:200-207 | the entry of a namespace is the outcome of the call made for its last occurrence in the list, the server having seen every earlier request |
| `Metrics.FanOutEntry` | kubernetes/utils/metrics.py:200-207 | for the last occurrence of a namespace: an invalid namespace holds the validation error record; a valid one holds the server's answer unchanged, or an `Error` record with the server's message; the server's view is the prior history plus the requests of the valid namespaces before it |
| `MetricsScenarios.PartialFailure` | kubernetes/test/test_metrics.py:146-164 | with `default` answered and `invalid-ns` failing with "Namespace not found", the map holds the response for `default` and the `Error` record for `invalid-ns`, with keys in that order |
| `MetricsScenarios.DuplicateLastWins` | kubernetes/utils/metrics.py:200-207 | a namespace listed twice keeps the failure of its second query over the success of its first, and its key keeps its first place; an empty namespace in the list becomes the validation error record and costs no request: exactly two requests go out, both for `ns1` |
| `MetricsScenarios.SharedSelector` | kubernetes/test/test_metrics.py:166-179 | for any server, the fan-out over two namespaces with selector `tier=frontend` calls `get_pods_metrics` twice and sends two pods requests, one per namespace in list order, each carrying that selector |

## Left out

- `CustomObjectsApi`, `ApiClient` and the HTTP transport are not part of this model. The remote call is the `Server<R>` parameter; timeouts, retries and authentication belong to it.
- The structure of responses (`items`, `usage`, quantity strings such as `100m`) is not modelled. Responses are an opaque type parameter because the module never reads them.
- Exception classes are not modelled. `ValueError`, `ApiException` and any other `Exception` become a failure carrying a message string, the model of `str(e)`. Exceptions outside `Exception`, such as `KeyboardInterrupt`, would escape the Python loop; the model does not represent them.
- Namespaces and selectors are `None` or strings. Python would accept other objects and test their truthiness; the model does not.
- In Python a successful response whose own `kind` is `"Error"` would look like an error record. The model keeps the two apart by constructor (`Response` and `ErrorRecord`).
- The creation of the `CustomObjectsApi` object in each helper has no observable effect in the model. It is not represented.
- `examples/metrics_example.py` (console output and config loading) and the generated model classes under `kubernetes/client/models/` have no logic to prove and are not part of this model.
