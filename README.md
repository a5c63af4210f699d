# k3d bootstrap-manifest delivery, modelled in Dafny

This project models the part of the k3d client that delivers a cluster's
auto-deploy manifests to its k3s server nodes (`pkg/client/manifests.go`). The
code does two things:

- `ClusterPrepManifestVolume` runs before the nodes are created. It names the
  manifest volume after the cluster and asks the container runtime to create it.
  It then records the name in the creation options' global labels, in
  `cluster.ManifestVolume` and in `cluster.Volumes`. Finally it appends the mount
  `"<volume>:<embedded-manifests path>"` to every server node.
- `CopyManifetsToVolume` (the source's spelling) runs once a node is up. For each
  manifest, in order, it creates a local temp file, writes the payload into it,
  copies it to `<embedded-manifests path>/<name>` inside the tools node, and
  removes the temp file. It stops at the first failure.

Layout, one module per package the code touches:

- `types.dfy` (`K3dTypes`): nodes, clusters and the options bag as classes, since
  Go shares them by pointer and the code updates their fields. Also the manifest
  value and the naming constants.
- `k3s.dfy` (`K3s`): the embedded-manifests path.
- `util.dfy` (`Util`): the node filter, reduced to "nodes of this role".
- `os.dfy` (`Os`): local temp files, kept as a map from temp path to content.
  A serial counter stands in for the operating system's unique naming.
- `runtimes.dfy` (`Runtimes`): the container runtime, kept as its volumes and
  the files inside node containers.
- `manifests.dfy` (`Client`): the two procedures and the lemmas about them.
- `wrappers.dfy` (`Wrappers`): an `Option` type.

The runtime, the operating system and the node filter are not implemented.
Each call takes the outcome it should report as a parameter. For the prep step
these are two booleans. For the copy loop they are a sequence `steps` of
`Step` values, one per manifest: `Proceed`, `CreateTempFails`, `WriteFails(n)`
(the write stops after `n` characters) or `CopyFails`.

The object prefix, the label keys and the embedded-manifests path are declared
without values, because their definitions are not part of this model. Every
property holds whatever their values are.

Cleanup might be expected on every exit path of an iteration. In the code,
the write-failure and copy-failure returns run before `os.Remove`
(`pkg/client/manifests.go:74-83`), so that iteration's temp file stays behind.
`CopyManifetsToVolume` states this in its postconditions. A node-filter failure
changes no node, but by then the options and the cluster fields have already
been updated (`pkg/client/manifests.go:48-56`), and the model says so.

## Model

| member | source | states |
|---|---|---|
| `Client.ManifestVolumeName` | pkg/client/manifests.go:42 | the volume name `<prefix>-<cluster>-manifests`; its meaning is stated by `ManifestVolumeNameParts` and `ManifestVolumeNameInjective` |
| `Client.MountSpec` | pkg/client/manifests.go:58 | the mount string `<volume>:<embedded path>`; `MountSpecInjective` states that it determines the volume |
| `Client.ManifestPath` | pkg/client/manifests.go:67 | the destination `<embedded path>/<name>`; `ManifestPathInjective` states that it determines the name |
| `Client.ApplyCopies` | pkg/client/manifests.go:66-85 | reference definition of the node files after copying a list of manifests in order; its meaning is stated by the `ApplyCopies*` lemmas |
| `Client.ManifestVolumeNameParts` | pkg/client/manifests.go:42 | the volume name is the prefix, a dash, exactly the cluster name, then `-manifests`; a pure function of the name |
| `Client.ManifestVolumeNameInjective` | pkg/client/manifests.go:42 | two cluster names give the same manifest volume name only if they are equal |
| `Client.MountSpecInjective` | pkg/client/manifests.go:58 | the mount spec `<volume>:<embedded path>` determines the volume |
| `Client.ManifestPathInjective` | pkg/client/manifests.go:67 | the destination `<embedded path>/<name>` determines the manifest name, so differently named manifests land in different files |
| `Util.FilterNodesByRole` | pkg/client/manifests.go:53 | the `"server:*"` selection keeps only nodes of the role, keeps every node of the role, and keeps each one as often as it occurs |
| `Util.DistinctOccursOnce` | pkg/client/manifests.go:57-59 | in a node list without repetitions each member occurs exactly once, so the loop appends to each server node once |
| `Client.AppendMount` | pkg/client/manifests.go:57-59 | after the loop, each node's volumes are its old volumes plus one mount entry per time the node was selected; only the `volumes` field of selected nodes can change |
| `Client.ClusterPrepManifestVolume` | pkg/client/manifests.go:37-63 | result by outcome. If creation fails: cluster, nodes, options and runtime volumes unchanged. Otherwise: runtime holds the volume labelled with the cluster name; global label, `manifestVolume` and `volumes + [v]` set. If filtering fails: no node changed. On success: each server node gains the mount once per occurrence (exactly once without repetitions) and every other node is unchanged. The node list and the cluster name never change |
| `Runtimes.Runtime.CreateVolume` | pkg/client/manifests.go:43 | the volume with its label map is recorded exactly when creation succeeds |
| `Runtimes.Runtime.CopyToNode` | pkg/client/manifests.go:78 | on success the destination in the node holds the whole content of the local file; on failure nothing changes |
| `Os.HostFs.CreateTemp` | pkg/client/manifests.go:68 | a successful creation adds one new, empty temp file whose path is not among the live ones; a failed one changes nothing |
| `Os.HostFs.WriteString` | pkg/client/manifests.go:74 | the file gains the whole string on success, and the first `n` characters when the write stops after `n` |
| `Os.Truncate` | pkg/client/manifests.go:74 | a partial write leaves a prefix of the payload of length `min(n, length)` |
| `Os.HostFs.Remove` | pkg/client/manifests.go:83 | the temp file is no longer live; other temp files are untouched |
| `Client.FirstFailure` | pkg/client/manifests.go:66-81 | the index where the loop stops: every earlier manifest's steps all succeeded, and the step at that index failed (or the index is the count) |
| `Client.FirstFailureAppend` | pkg/client/manifests.go:68-81 | a failure at index k makes every later outcome irrelevant: manifests after k are never reached |
| `Client.CopyManifetsToVolume` | pkg/client/manifests.go:65-88 | node files are the old ones with exactly manifests `0..k-1` copied in order, where k is the first failing index. Exactly k temp files are created (k+1 if the failing step got past creation). On success no temp file of the call remains. After a write or copy failure, manifest k's temp file remains with the partial or full payload. The result names the failing index and stage |
| `Client.ApplyCopiesKeys` | pkg/client/manifests.go:66-85 | copying adds exactly the destination file of each copied manifest and keeps all existing node files |
| `Client.ApplyCopiesContent` | pkg/client/manifests.go:67-78 | a copied manifest not overwritten by a later one of the same name sits at `<embedded path>/<name>` with its payload verbatim |
| `Client.ApplyCopiesUntouched` | pkg/client/manifests.go:78 | a node file that no copied manifest targets keeps its content, and exists only if it existed before |
| `Client.ApplyCopiesCount` | pkg/client/manifests.go:66-85 | starting from no node files, N manifests with distinct names leave exactly N files |

## Left out

- The container runtime's implementation of volume creation and copying. Only the outcome and its effect on the runtime's volumes and node files are modelled. A failed call is taken to change nothing.
- Os.HostFs.WriteString: payloads are character sequences, so a partial write is counted in characters. Go's `WriteString` counts bytes of the UTF-8 encoding and can stop inside a multi-byte character; that residue is not representable. Go also reports an error only when fewer bytes than the whole string were written, while the model also admits `WriteFails(n)` with `n` at least the payload length (the whole payload is then stored and an error still reported).
- The real temp-file layer: directories, permissions, the random part of temp names and file handles. Uniqueness of temp names is modelled by a serial counter. The handle from `os.CreateTemp` is never closed in the source; open handles are not modelled.
- The error returned by `os.Remove` (`pkg/client/manifests.go:83`), which the source ignores. `Os.HostFs.Remove` always succeeds.
- The selector language of `util.FilterNodes`. Only the selector `"server:*"` is used, and it is modelled as "role is server". A filter failure is an outcome flag.
- Logging (`pkg/client/manifests.go:46, 60, 72, 84`) and `context.Context` cancellation. A cancelled call is just a failing outcome.
- The wording of the wrapped error messages. Results keep the stage, the manifest index, and the names or temp file they mention.
- A nil `GlobalLabels` map: assigning into it would panic in Go. The model's map always exists, so callers are assumed to have initialised it.
- The values of `k3d.DefaultObjectNamePrefix`, `k3d.LabelClusterName`, `k3d.LabelManifestVolume` and `k3s.K3sPathManifestsEmbedded`. They are defined in packages that are not part of this model.
- Concurrency; the code has none.
