# Contour TCP proxy filter builder, in Dafny

This project models the TCP proxy part of contour's Envoy listener builder,
`internal/envoy/listener.go`. It has two parts.

- **The configuration value tree.** Contour emits a schema-less protobuf
  `Value`: a string, number, boolean, struct or list. It builds these with
  four one-line constructors: `sv`, `st`, `lv` and `nv`. In the model they
  are `Values.Sv`, `St`, `Lv` and `Nv`. Each is specified through observers
  that read a value back the way a serializer does: `AsString`, `AsNumber`,
  `FieldNames`, `Field`, `Length` and `Element`.
- **`TCPProxy`.** This function builds the `envoy.tcp_proxy` filter for a
  TCP proxy route.
  - With exactly one backend service, the filter names that service's
    cluster directly.
  - Otherwise it copies the services and stable-sorts the copy by name, then
    by weight (`tcpServiceByName`). It replaces each unset weight (0) by 1
    and emits a `weighted_clusters.clusters` list of `{name, weight}`
    structs in that order.

The model has four modules, one file each:

- `values.dfy` (`Values`): the value tree and its constructors.
- `service_order.dfy` (`ServiceOrder`):
  - the backend record `TcpService`;
  - Go's string order `StrLess`;
  - the comparator `Less` and `Swap` of `tcpServiceByName`;
  - the proof that `Less` is a strict weak ordering.
- `stable_sort.dfy` (`StableSort`): `sort.Stable` as TCPProxy uses it.
  - It is an in-place insertion sort on an `array` (`SortStable`, one pass
    per `InsertAt`) that moves entries only through `Swap`.
  - It is specified by the function `InsertionSort`.
  - `InsertionSort`'s output is proved sorted, a permutation of the input and
    stable. Stability is stated as: for every key (name, weight), the
    subsequence of entries with that key is unchanged (`Matching`, `Stable`).
  - It is also proved to be the only sequence with those properties
    (`StableSortIsUnique`).
- `listener.dfy` (`Listener`):
  - the method `TcpProxy`, which copies, sorts and builds the list;
  - `TcpProxyFilter`, the function it is proved equal to;
  - lemmas that read the filter's shape back.

`dag.TCPService` is not part of this model. A service is a record with
`name`, `weight` and `id`. `id` stands for everything else a
`dag.TCPService` carries (namespace, port, the identity of the pointer being
sorted). The comparator ignores `id`, so two services with the same name and
weight can still be told apart. That is what makes stability a real property.

`Clustername` is not part of this model. It is a parameter
`clusterName: TcpService -> string`: an arbitrary total function.

`accesslog(path)` is a fixed literal. The model takes it as a parameter
`accessLog: Value`.

With no services, `TCPProxy` takes its `default` branch and emits an empty
`clusters` list; nothing guards against it. The model follows the code:
`TcpProxyFilter` has no precondition on the number of services.
`WeightedClusters` covers zero services: `clusters` is then an empty list
value.

## Model

| member | source | states |
|---|---|---|
| Values.Sv | internal/envoy/listener.go:202-204 | `sv(s)` reads back as the string `s`; it is no number, struct or list |
| Values.St | internal/envoy/listener.go:206-208 | `st(m)` is always a struct value, even for an empty map; it has exactly the field names of `m`, and each field reads back as `m`'s value for that key |
| Values.Lv | internal/envoy/listener.go:210-212 | `lv(v...)` is always a list value, even with no arguments; it has exactly `|v|` elements, and element `i` is `v[i]`, in argument order |
| Values.Nv | internal/envoy/listener.go:214-216 | `nv(n)` reads back as the number `n`; it is no string, struct or list |
| ServiceOrder.LessIsStrictWeakOrder | internal/envoy/listener.go:129-134 | `Less` is irreflexive, asymmetric and transitive; two services are unordered by it exactly when they have the same name and weight. These are the comparator properties `sort.Stable` relies on |
| ServiceOrder.Swap | internal/envoy/listener.go:128 | `Swap(i, j)` exchanges entries `i` and `j` and leaves every other entry alone |
| StableSort.InsertAt | internal/envoy/listener.go:98 | one insertion pass over an array (Swap while `Less(j, j-1)`) leaves `Insert(prefix, a[i])` in the first `i+1` slots and the rest unchanged |
| StableSort.SortStable | internal/envoy/listener.go:98 | sorting the array in place leaves exactly `InsertionSort` of its old contents |
| StableSort.Insert | internal/envoy/listener.go:98 | inserting `x` adds exactly one entry, `x`, to the multiset; the last entry is `x` or the old last entry |
| StableSort.InsertionSort | internal/envoy/listener.go:98 | the sorted sequence has the input's length and is a permutation of it (same multiset) |
| StableSort.SortSorted | internal/envoy/listener.go:98 | the sorted sequence never descends under `Less` between neighbours |
| StableSort.SortIsStable | internal/envoy/listener.go:98 | for every name and weight, the entries with that key keep their input order |
| StableSort.SortedByNameThenWeight | internal/envoy/listener.go:129-134 | sorted holds exactly when each neighbour pair has a strictly smaller name first, or equal names and a non-decreasing weight |
| StableSort.StableSortIsUnique | internal/envoy/listener.go:98 | any sorted, stable rearrangement of the input equals `InsertionSort` of it. So the block-insertion and merge algorithm of `sort.Stable` gives the same list |
| StableSort.SortIgnoresInputOrder | internal/envoy/listener.go:94-98 | two inputs that list each key's entries in the same order sort to the same sequence |
| Listener.CopyOf | internal/envoy/listener.go:96-97 | `make` plus `copy`: a fresh array with the same entries |
| Listener.BuildClusters | internal/envoy/listener.go:99-109 | the loop emits, in order, one `{name: Clustername(s), weight: w}` struct per service, with `w` = 1 where the weight is 0 and the weight otherwise |
| Listener.TcpProxy | internal/envoy/listener.go:80-123 | the filter built is `TcpProxyFilter` of the caller's services. The caller's array is only read: the method has no `modifies` clause, and sorting happens on a fresh copy |
| Listener.SingleServiceIsDirect | internal/envoy/listener.go:81-92 | one service gives exactly the fields `stat_prefix`, `cluster` = `sv(Clustername(services[0]))` and `access_log`, with no `weighted_clusters`, whatever the weight |
| Listener.WeightedClusters | internal/envoy/listener.go:93-121 | any other count gives exactly `stat_prefix`, `weighted_clusters` and `access_log`. `clusters` has one entry per input service. The services behind it are a permutation of the input, sorted by name then weight, and stable. Each entry has that service's cluster name and its weight, with 0 read as 1 |
| Listener.TcpProxyIgnoresInputOrder | internal/envoy/listener.go:94-98 | the filter is the same for any two inputs that list each (name, weight) key's services in the same order. Only the order among equal keys matters |

## Left out

- `HTTPConnectionManager`, `TLSInspector` and `accesslog` are fixed protobuf literals with no branching. Of these, only `accesslog(accessLogPath)` enters `TCPProxy`, and it enters as the `accessLog` parameter.
- `DownstreamTLSContext` is a static cipher allow-list wrapped in go-control-plane types, and `SocketAddress` is a thin conversion to a go-control-plane address. Neither is modelled.
- `Clustername` and the `dag` package are not part of this model. `Clustername` is the `clusterName` parameter.
- `dag.TCPService` weights are taken as non-negative (`nat`). A negative Go `int` weight is not modelled.
- `util.TCPProxy` from go-control-plane is not part of this model. Its value is taken to be `envoy.tcp_proxy`.
- go-control-plane's `listener.Filter` and gogo/protobuf's `types.Struct` are represented by the `Filter` datatype and a `map<string, Value>`. Serialisation is not modelled.
- Values.Nv: numbers are unbounded integers, not `float64`. The conversion `float64(weight)` is taken as exact, which does not hold for weights above 2^53.
- Values: the boolean and null kinds exist in the datatype. The core has no constructor for them.
- StableSort.SortStable: Go's `sort.Stable` insertion-sorts blocks of 20 entries and then merges them with `SymMerge`. The model sorts with one insertion sort, which is exactly Go's algorithm for up to 20 services. For more, only the resulting order is modelled, not Go's sequence of swaps. `StableSortIsUnique` shows that order is the same.
- ServiceOrder.StrLess: Go compares strings byte by byte in UTF-8. The model compares characters, which gives the same order for valid text.
- Pointer identity and aliasing: Go sorts a slice of pointers, and `lv(l...)` shares the slice `l`. The model works on values. The caller's array and its fresh copy are the only heap objects. The model proves the caller's array is not written, because `TcpProxy` has no `modifies` clause.
