/**
 * Concrete runs of the metrics helpers against small servers whose answer
 * depends on how many requests they have already served, as a mocked
 * client with a list of successive answers behaves.
 */
module MetricsScenarios {
  import opened Wrappers
  import opened Metrics

  /** A server that answers its first request and fails every later one. */
  function FirstOnly(): Server<string>
  {
    (seen: seq<Request>, request: Request) =>
      if |seen| == 0 then Ok("PodMetricsList") else Err("Namespace not found")
  }

  /**
   * Two namespaces, the second failing: both keys are present, the first
   * holds the response and the second an error record with the message,
   * in list order.
   */
  lemma PartialFailure()
    ensures FanOut(FirstOnly(), [], [Some("default"), Some("invalid-ns")], None).results
            == map[Some("default") := Response("PodMetricsList"),
                   Some("invalid-ns") := ErrorRecord("Error", "Namespace not found")]
    ensures FanOut(FirstOnly(), [], [Some("default"), Some("invalid-ns")], None).order
            == [Some("default"), Some("invalid-ns")]
  {
  }

  /**
   * A namespace listed twice keeps the outcome of its last occurrence:
   * the first query succeeds, the repeated one fails, and the failure stays.
   * The key keeps the place of its first occurrence. The empty namespace
   * between them costs no request.
   */
  lemma {:induction false} DuplicateLastWins()
    ensures FanOut(FirstOnly(), [], [Some("ns1"), Some(""), Some("ns1")], None).results
            == map[Some("ns1") := ErrorRecord("Error", "Namespace not found"),
                   Some("") := ErrorRecord("Error", NamespaceRequired)]
    ensures FanOut(FirstOnly(), [], [Some("ns1"), Some(""), Some("ns1")], None).order
            == [Some("ns1"), Some("")]
    ensures FanOut(FirstOnly(), [], [Some("ns1"), Some(""), Some("ns1")], None).issued
            == [NamespacedList(MetricsApiGroup, MetricsApiVersion, "ns1", PodsPlural, None),
                NamespacedList(MetricsApiGroup, MetricsApiVersion, "ns1", PodsPlural, None)]
  {
    var namespaces := [Some("ns1"), Some(""), Some("ns1")];
    assert namespaces[..2] == [Some("ns1"), Some("")];
    assert namespaces[..2][..1] == [Some("ns1")];
    assert namespaces[..2][..1][..0] == [];
    assert namespaces[..1] == [Some("ns1")] && namespaces[..1][..0] == [];
    var empty := FanOut(FirstOnly(), [], [], None);
    assert empty.issued == [] && empty.results == map[];
    var call := GetPodsMetrics(FirstOnly(), [], Some("ns1"), None);
    assert call.result == Ok("PodMetricsList") && |call.issued| == 1;
    var first := FanOut(FirstOnly(), [], namespaces[..1], None);
    assert first.issued == call.issued;
    var prefix := FanOut(FirstOnly(), [], namespaces[..2], None);
    assert prefix.issued == call.issued;
    assert prefix.order == [Some("ns1"), Some("")];
    assert prefix.results == map[Some("ns1") := Response("PodMetricsList"),
                                 Some("") := ErrorRecord("Error", NamespaceRequired)];
  }

  /**
   * Two valid namespaces and one selector, whatever the server answers: the
   * fan-out calls `get_pods_metrics` twice, and sends two requests, one per
   * namespace in list order, each carrying the selector.
   */
  lemma SharedSelector<R>(server: Server<R>, history: seq<Request>)
    ensures |CallLog(server, history, [Some("ns1"), Some("ns2")], Some("tier=frontend"))| == 2
    ensures FanOut(server, history, [Some("ns1"), Some("ns2")], Some("tier=frontend")).issued
            == [NamespacedList(MetricsApiGroup, MetricsApiVersion, "ns1", PodsPlural, Some("tier=frontend")),
                NamespacedList(MetricsApiGroup, MetricsApiVersion, "ns2", PodsPlural, Some("tier=frontend"))]
  {
    var namespaces := [Some("ns1"), Some("ns2")];
    CallLogAt(server, history, namespaces, Some("tier=frontend"));
    FanOutIssued(server, history, namespaces, Some("tier=frontend"));
    ValidRequestsAllValid(namespaces, Some("tier=frontend"));
  }
}
