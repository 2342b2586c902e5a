/** The TCP proxy filter builder TCPProxy of internal/envoy/listener.go
    (lines 79-123): one service becomes a direct cluster reference; any
    other number becomes a weighted cluster list, in name-then-weight
    order, with unset weights raised to 1. */
module Listener {
  import opened Values
  import opened ServiceOrder
  import opened StableSort

  /** The filter name util.TCPProxy of go-control-plane. */
  const TcpProxyName := "envoy.tcp_proxy"

  /** A listener.Filter: its name and its struct of configuration fields. */
  datatype Filter = Filter(name: string, config: map<string, Value>)

  /** The weight a service is given: an unset weight (0) counts as 1. */
  function EffectiveWeight(s: TcpService): nat
  {
    if s.weight == 0 then 1 else s.weight
  }

  /** The {name, weight} struct describing one backend of the list. */
  function ClusterEntry(s: TcpService, clusterName: TcpService -> string): Value
  {
    St(map["name" := Sv(clusterName(s)), "weight" := Nv(EffectiveWeight(s))])
  }

  /** One ClusterEntry per service of t, in the order of t. */
  function ClusterList(t: seq<TcpService>, clusterName: TcpService -> string): seq<Value>
  {
    seq(|t|, i requires 0 <= i < |t| => ClusterEntry(t[i], clusterName))
  }

  /** The filter TCPProxy builds for the services s, in their input order;
      accessLog stands for accesslog(accessLogPath). */
  function TcpProxyFilter(statPrefix: string, s: seq<TcpService>, accessLog: Value,
                          clusterName: TcpService -> string): Filter
  {
    if |s| == 1 then
      Filter(TcpProxyName, map[
        "stat_prefix" := Sv(statPrefix),
        "cluster" := Sv(clusterName(s[0])),
        "access_log" := accessLog])
    else
      Filter(TcpProxyName, map[
        "stat_prefix" := Sv(statPrefix),
        "weighted_clusters" := St(map["clusters" := Lv(ClusterList(InsertionSort(s), clusterName))]),
        "access_log" := accessLog])
  }

  /** make plus copy: a fresh array holding the entries of a. */
  method CopyOf(a: array<TcpService>) returns (b: array<TcpService>)
    ensures fresh(b) && b[..] == a[..]
  {
    b := new TcpService[a.Length];
    var k := 0;
    while k < b.Length
      invariant 0 <= k <= b.Length == a.Length
      invariant b[..k] == a[..k]
    {
      b[k] := a[k];
      k := k + 1;
    }
  }

  /** The loop that turns the sorted services into the cluster list: each
      weight of 0 is replaced by 1 and one {name, weight} struct is
      appended per service. */
  method BuildClusters(services: array<TcpService>, clusterName: TcpService -> string) returns (l: seq<Value>)
    ensures l == ClusterList(services[..], clusterName)
  {
    l := [];
    var i := 0;
    while i < services.Length
      invariant 0 <= i <= services.Length
      invariant |l| == i
      invariant forall j :: 0 <= j < i ==> l[j] == ClusterEntry(services[j], clusterName)
    {
      var service := services[i];
      var weight := service.weight;
      if weight == 0 {
        weight := 1;
      }
      l := l + [St(map["name" := Sv(clusterName(service)), "weight" := Nv(weight)])];
      i := i + 1;
    }
  }

  /** TCPProxy. The caller's services are only read (the method has no
      modifies clause): they are copied into a fresh array, which is sorted
      in place and then turned into the cluster list. */
  method TcpProxy(statPrefix: string, proxyServices: array<TcpService>, accessLog: Value,
                  clusterName: TcpService -> string) returns (f: Filter)
    ensures f == TcpProxyFilter(statPrefix, proxyServices[..], accessLog, clusterName)
  {
    if proxyServices.Length == 1 {
      return Filter(TcpProxyName, map[
        "stat_prefix" := Sv(statPrefix),
        "cluster" := Sv(clusterName(proxyServices[0])),
        "access_log" := accessLog]);
    }
    var services := CopyOf(proxyServices);
    SortStable(services);
    var l := BuildClusters(services, clusterName);
    return Filter(TcpProxyName, map[
      "stat_prefix" := Sv(statPrefix),
      "weighted_clusters" := St(map["clusters" := Lv(l)]),
      "access_log" := accessLog]);
  }

  /** One service: the filter names that service's cluster directly and has
      no weighted_clusters field, whatever the service's weight. */
  lemma SingleServiceIsDirect(statPrefix: string, s: seq<TcpService>, accessLog: Value,
                              clusterName: TcpService -> string)
    requires |s| == 1
    ensures var f := TcpProxyFilter(statPrefix, s, accessLog, clusterName);
      && f.name == TcpProxyName
      && f.config.Keys == {"stat_prefix", "cluster", "access_log"}
      && f.config["stat_prefix"] == Sv(statPrefix)
      && f.config["cluster"] == Sv(clusterName(s[0]))
      && f.config["access_log"] == accessLog
  {
  }

  /** Any other number of services: the filter carries a weighted cluster
      list with one entry per service; behind the entries are the input
      services, rearranged into name-then-weight order, stably, each
      entry naming its service's cluster and its weight with 0 read as 1. */
  lemma WeightedClusters(statPrefix: string, s: seq<TcpService>, accessLog: Value,
                         clusterName: TcpService -> string)
    requires |s| != 1
    ensures var f := TcpProxyFilter(statPrefix, s, accessLog, clusterName);
      var t := InsertionSort(s);
      var clusters := ClusterList(t, clusterName);
      && f.name == TcpProxyName
      && f.config.Keys == {"stat_prefix", "weighted_clusters", "access_log"}
      && f.config["stat_prefix"] == Sv(statPrefix)
      && f.config["weighted_clusters"] == St(map["clusters" := Lv(clusters)])
      && f.config["access_log"] == accessLog
      && |clusters| == |t| == |s|
      && multiset(t) == multiset(s)
      && Sorted(t)
      && Stable(s, t)
      && (forall i :: 0 <= i < |t| ==>
            clusters[i] == St(map[
              "name" := Sv(clusterName(t[i])),
              "weight" := Nv(if t[i].weight == 0 then 1 else t[i].weight)]))
  {
    SortSorted(s);
    SortIsStable(s);
  }

  /** The filter depends on the input order only among services with the
      same name and weight: reordering services with different keys (as
      the order the routing graph hands them over may) changes nothing. */
  lemma TcpProxyIgnoresInputOrder(statPrefix: string, s1: seq<TcpService>, s2: seq<TcpService>,
                                  accessLog: Value, clusterName: TcpService -> string)
    requires Stable(s1, s2)
    ensures TcpProxyFilter(statPrefix, s1, accessLog, clusterName) ==
            TcpProxyFilter(statPrefix, s2, accessLog, clusterName)
  {
    SortIgnoresInputOrder(s1, s2);
    if |s1| == 1 {
      assert s1 == [s1[0]];
      assert InsertionSort(s1) == s1;
      assert s2 == [s2[0]];
      assert InsertionSort(s2) == s2;
    }
  }
}
