/** The bootstrap-manifest code of the k3d client: preparing the manifest volume that
    server nodes mount, and copying the cluster's manifests into a node. */
module Client {
  import opened Wrappers
  import opened K3dTypes
  import opened K3s
  import opened Util
  import opened Os
  import opened Runtimes

  // ---------------------------------------------------------------------------
  // Names and paths

  /** The name of a cluster's manifest volume: `<prefix>-<cluster>-manifests`. */
  function ManifestVolumeName(clusterName: string): string
  {
    DefaultObjectNamePrefix + "-" + clusterName + "-manifests"
  }

  /** The manifest volume name is the prefix and a dash, then exactly the cluster
      name, then the fixed suffix. */
  lemma ManifestVolumeNameParts(clusterName: string)
    ensures var v, p := ManifestVolumeName(clusterName), |DefaultObjectNamePrefix| + 1;
      |v| == p + |clusterName| + 10 &&
      v[..p] == DefaultObjectNamePrefix + "-" &&
      v[p..p + |clusterName|] == clusterName &&
      v[p + |clusterName|..] == "-manifests"
  {
  }

  /** Two clusters share a manifest volume only if they have the same name. */
  lemma ManifestVolumeNameInjective(a: string, b: string)
    requires ManifestVolumeName(a) == ManifestVolumeName(b)
    ensures a == b
  {
    ManifestVolumeNameParts(a);
    ManifestVolumeNameParts(b);
    var p := |DefaultObjectNamePrefix| + 1;
    assert |a| == |b|;
    assert a == ManifestVolumeName(a)[p..p + |a|];
  }

  /** The mount specification that attaches `volume` at the embedded-manifests path. */
  function MountSpec(volume: string): string
  {
    volume + ":" + K3sPathManifestsEmbedded
  }

  /** Distinct volumes give distinct mount specifications. */
  lemma MountSpecInjective(a: string, b: string)
    requires MountSpec(a) == MountSpec(b)
    ensures a == b
  {
    var suffix := ":" + K3sPathManifestsEmbedded;
    assert MountSpec(a) == a + suffix && MountSpec(b) == b + suffix;
    assert |a| == |b|;
    assert a == MountSpec(a)[..|a|];
    assert b == MountSpec(b)[..|b|];
  }

  /** The in-container path a manifest is copied to. */
  function ManifestPath(name: string): string
  {
    K3sPathManifestsEmbedded + "/" + name
  }

  /** Manifests with different names land in different files. */
  lemma ManifestPathInjective(a: string, b: string)
    requires ManifestPath(a) == ManifestPath(b)
    ensures a == b
  {
    var dir := K3sPathManifestsEmbedded + "/";
    assert ManifestPath(a) == dir + a && ManifestPath(b) == dir + b;
    assert a == ManifestPath(a)[|dir|..];
    assert b == ManifestPath(b)[|dir|..];
  }

  /** `k` copies of `s`. */
  function Repeat(s: string, k: nat): seq<string>
  {
    seq(k, _ => s)
  }

  // ---------------------------------------------------------------------------
  // Preparing the manifest volume

  /** How preparing the manifest volume ended. */
  datatype PrepResult =
    | Prepared
    | CreateVolumeFailed(volume: string, cluster: string)
    | FilterNodesFailed

  /** Appends `mount` to the volumes of each node of `selected`, a selection out of
      `nodes`: a node gets one entry per time it was selected. */
  method AppendMount(nodes: seq<Node>, selected: seq<Node>, mount: string)
    requires forall n :: n in selected ==> n in nodes
    modifies (set n | n in selected)`volumes
    ensures forall n :: n in nodes ==> n.volumes == old(n.volumes) + Repeat(mount, multiset(selected)[n])
  {
    for i := 0 to |selected|
      invariant forall n :: n in nodes ==>
        n.volumes == old(n.volumes) + Repeat(mount, multiset(selected[..i])[n])
    {
      var node := selected[i];
      assert selected[..i + 1] == selected[..i] + [node];
      node.volumes := node.volumes + [mount];
    }
    assert selected[..|selected|] == selected;
  }

  /** Creates the manifest volume of `cluster`, records it in the options' global
      labels and in the cluster, and adds its mount to every server node.
      `createVolumeFails` and `filterNodesFails` are the outcomes of the runtime's
      volume creation and of the node filter. */
  method ClusterPrepManifestVolume(rt: Runtime, cluster: Cluster, opts: ClusterCreateOpts,
                                   createVolumeFails: bool, filterNodesFails: bool)
      returns (res: PrepResult)
    modifies rt`volumes, cluster`volumes, cluster`manifestVolume, opts`globalLabels
    modifies (set n | n in cluster.nodes)`volumes
    ensures cluster.nodes == old(cluster.nodes) && cluster.name == old(cluster.name)
    ensures var v := ManifestVolumeName(cluster.name);
      res == if createVolumeFails then CreateVolumeFailed(v, cluster.name)
             else if filterNodesFails then FilterNodesFailed
             else Prepared
    // the runtime holds the volume, labelled with the cluster's name, unless creation failed
    ensures rt.volumes == if createVolumeFails then old(rt.volumes)
      else old(rt.volumes)[ManifestVolumeName(cluster.name) := map[LabelClusterName := cluster.name]]
    // a failed creation leaves the cluster and the options as they were
    ensures createVolumeFails ==>
      cluster.volumes == old(cluster.volumes) && cluster.manifestVolume == old(cluster.manifestVolume) &&
      opts.globalLabels == old(opts.globalLabels)
    // otherwise the volume is recorded in three places, even if filtering then fails
    ensures !createVolumeFails ==>
      var v := ManifestVolumeName(cluster.name);
      cluster.volumes == old(cluster.volumes) + [v] && cluster.manifestVolume == v &&
      opts.globalLabels == old(opts.globalLabels)[LabelManifestVolume := v]
    // a server node gets the mount once per occurrence in the node list; no other node changes
    ensures forall n :: n in cluster.nodes ==>
      n.volumes == old(n.volumes) +
        if res == Prepared && n.role == ServerRole
        then Repeat(MountSpec(ManifestVolumeName(cluster.name)), multiset(cluster.nodes)[n])
        else []
    // in a node list without repetitions, each server node gets exactly one mount
    ensures res == Prepared && Distinct(cluster.nodes) ==>
      forall n :: n in cluster.nodes && n.role == ServerRole ==>
        n.volumes == old(n.volumes) + [MountSpec(ManifestVolumeName(cluster.name))]
  {
    var v := ManifestVolumeName(cluster.name);
    var created := rt.CreateVolume(v, map[LabelClusterName := cluster.name], createVolumeFails);
    if !created {
      return CreateVolumeFailed(v, cluster.name);
    }

    opts.globalLabels := opts.globalLabels[LabelManifestVolume := v];
    cluster.manifestVolume := v;
    cluster.volumes := cluster.volumes + [v];

    if filterNodesFails {
      return FilterNodesFailed;
    }
    var servers := FilterNodesByRole(cluster.nodes, ServerRole);
    AppendMount(cluster.nodes, servers, MountSpec(v));
    res := Prepared;
    forall n | n in cluster.nodes && n.role == ServerRole && Distinct(cluster.nodes)
      ensures multiset(cluster.nodes)[n] == 1
    {
      DistinctOccursOnce(cluster.nodes, n);
    }
  }

  // ---------------------------------------------------------------------------
  // Copying the manifests

  /** What the environment does when manifest i is handled: everything succeeds, or
      the temp-file creation, the write (after `written` characters) or the copy into
      the node fails. */
  datatype Step = Proceed | CreateTempFails | WriteFails(written: nat) | CopyFails

  /** How copying the manifests ended; a failure names the manifest's index and, once
      a temp file exists, that file. */
  datatype CopyResult =
    | Copied
    | CreateTempFailed(index: nat)
    | WriteFailed(index: nat, file: TempPath)
    | CopyToNodeFailed(index: nat, file: TempPath)

  /** The index of the first step that does not proceed, or `|steps|` if all proceed. */
  function FirstFailure(steps: seq<Step>): (k: nat)
    ensures k <= |steps|
    ensures forall i :: 0 <= i < k ==> steps[i] == Proceed
    ensures k < |steps| ==> steps[k] != Proceed
  {
    if steps == [] || steps[0] != Proceed then 0 else 1 + FirstFailure(steps[1..])
  }

  /** The node files after copying the manifests `ms`, in order, into `node`. */
  function ApplyCopies(files: map<(Node, string), string>, node: Node, ms: seq<Manifest>): map<(Node, string), string>
  {
    if ms == [] then files
    else
      var last := ms[|ms| - 1];
      ApplyCopies(files, node, ms[..|ms| - 1])[CopyKey(node, last) := last.manifest]
  }

  /** The destination key of manifest `m` copied into `node`. */
  function CopyKey(node: Node, m: Manifest): (Node, string)
  {
    (node, ManifestPath(m.name))
  }

  /** Copying adds exactly one file per copied manifest and keeps all existing ones. */
  lemma {:induction false} ApplyCopiesKeys(files: map<(Node, string), string>, node: Node, ms: seq<Manifest>)
    ensures ApplyCopies(files, node, ms).Keys == files.Keys + set i | 0 <= i < |ms| :: CopyKey(node, ms[i])
  {
    if ms != [] {
      var init := ms[..|ms| - 1];
      ApplyCopiesKeys(files, node, init);
      var later := set i | 0 <= i < |ms| :: CopyKey(node, ms[i]);
      var earlier := set i | 0 <= i < |init| :: CopyKey(node, init[i]);
      assert later == earlier + {CopyKey(node, ms[|ms| - 1])} by {
        forall k | k in later ensures k in earlier + {CopyKey(node, ms[|ms| - 1])} {
          var i :| 0 <= i < |ms| && k == CopyKey(node, ms[i]);
          if i < |init| { assert init[i] == ms[i]; }
        }
        forall k | k in earlier ensures k in later {
          var i :| 0 <= i < |init| && k == CopyKey(node, init[i]);
          assert init[i] == ms[i];
        }
      }
    }
  }

  /** A copied manifest whose name no later manifest reuses is found at its path with
      its payload verbatim. */
  lemma {:induction false} ApplyCopiesContent(files: map<(Node, string), string>, node: Node, ms: seq<Manifest>, i: nat)
    requires i < |ms|
    requires forall j :: i < j < |ms| ==> ms[j].name != ms[i].name
    ensures CopyKey(node, ms[i]) in ApplyCopies(files, node, ms)
    ensures ApplyCopies(files, node, ms)[CopyKey(node, ms[i])] == ms[i].manifest
  {
    var last := |ms| - 1;
    if i < last {
      var init := ms[..last];
      assert init[i] == ms[i];
      forall j | i < j < |init| ensures init[j].name != init[i].name {
        assert init[j] == ms[j];
      }
      ApplyCopiesContent(files, node, init, i);
      if ManifestPath(ms[last].name) == ManifestPath(ms[i].name) {
        ManifestPathInjective(ms[last].name, ms[i].name);
      }
    }
  }

  /** A file that is the destination of no copied manifest keeps its content, and
      exists afterwards only if it existed before. */
  lemma {:induction false} ApplyCopiesUntouched(files: map<(Node, string), string>, node: Node, ms: seq<Manifest>, key: (Node, string))
    requires forall i :: 0 <= i < |ms| ==> key != CopyKey(node, ms[i])
    ensures key in ApplyCopies(files, node, ms) <==> key in files
    ensures key in files ==> ApplyCopies(files, node, ms)[key] == files[key]
  {
    if ms != [] {
      var init := ms[..|ms| - 1];
      forall i | 0 <= i < |init| ensures key != CopyKey(node, init[i]) {
        assert init[i] == ms[i];
      }
      ApplyCopiesUntouched(files, node, init, key);
    }
  }

  /** Without earlier node files and with distinct manifest names, copying N manifests
      leaves exactly N files. */
  lemma {:induction false} ApplyCopiesCount(node: Node, ms: seq<Manifest>)
    requires forall i, j :: 0 <= i < j < |ms| ==> ms[i].name != ms[j].name
    ensures |ApplyCopies(map[], node, ms)| == |ms|
  {
    if ms != [] {
      var last := |ms| - 1;
      var init := ms[..last];
      forall i, j | 0 <= i < j < |init| ensures init[i].name != init[j].name {
        assert init[i] == ms[i] && init[j] == ms[j];
      }
      ApplyCopiesCount(node, init);
      forall i | 0 <= i < |init| ensures CopyKey(node, ms[last]) != CopyKey(node, init[i]) {
        assert init[i] == ms[i];
        if ManifestPath(ms[last].name) == ManifestPath(init[i].name) {
          ManifestPathInjective(ms[last].name, init[i].name);
        }
      }
      ApplyCopiesUntouched(map[], node, init, CopyKey(node, ms[last]));
    }
  }

  /** The first failure of a concatenation: a failure in the first part hides the
      second part entirely. */
  lemma {:induction false} FirstFailureAppend(a: seq<Step>, b: seq<Step>)
    ensures FirstFailure(a + b) == if FirstFailure(a) < |a| then FirstFailure(a) else |a| + FirstFailure(b)
  {
    if a != [] {
      assert (a + b)[0] == a[0];
      assert (a + b)[1..] == a[1..] + b;
      FirstFailureAppend(a[1..], b);
    } else {
      assert a + b == b;
    }
  }

  /** Copies every manifest of `cluster`, in order, to the embedded-manifests directory
      of `toolsNode` by way of a temp file, stopping at the first failure. `steps[i]`
      is what the environment does for manifest i. */
  method CopyManifetsToVolume(rt: Runtime, host: HostFs, cluster: Cluster, toolsNode: Node, steps: seq<Step>)
      returns (res: CopyResult)
    requires host.Valid()
    requires |steps| == |cluster.manifests|
    modifies rt`nodeFiles, host
    ensures host.Valid()
    // exactly the manifests before the first failure have been copied, in order
    ensures rt.nodeFiles == ApplyCopies(old(rt.nodeFiles), toolsNode, cluster.manifests[..FirstFailure(steps)])
    // full success: no temp file of this call remains
    ensures var k := FirstFailure(steps);
      k == |steps| ==>
        res == Copied && host.files == old(host.files) && host.nextSerial == old(host.nextSerial) + k
    // temp creation failed for manifest k: nothing of this call remains
    ensures var k := FirstFailure(steps);
      k < |steps| && steps[k] == CreateTempFails ==>
        res == CreateTempFailed(k) && host.files == old(host.files) && host.nextSerial == old(host.nextSerial) + k
    // write failed for manifest k: its temp file remains, holding what was written
    ensures var k := FirstFailure(steps);
      k < |steps| && steps[k].WriteFails? ==>
        var t := TempPath(old(host.nextSerial) + k, cluster.manifests[k].name);
        res == WriteFailed(k, t) && t !in old(host.files) && host.nextSerial == old(host.nextSerial) + k + 1 &&
        host.files == old(host.files)[t := Truncate(cluster.manifests[k].manifest, steps[k].written)]
    // copy failed for manifest k: its temp file remains, holding the whole manifest
    ensures var k := FirstFailure(steps);
      k < |steps| && steps[k] == CopyFails ==>
        var t := TempPath(old(host.nextSerial) + k, cluster.manifests[k].name);
        res == CopyToNodeFailed(k, t) && t !in old(host.files) && host.nextSerial == old(host.nextSerial) + k + 1 &&
        host.files == old(host.files)[t := cluster.manifests[k].manifest]
  {
    var ms := cluster.manifests;
    for i := 0 to |ms|
      invariant forall j :: 0 <= j < i ==> steps[j] == Proceed
      invariant host.Valid() && host.files == old(host.files) && host.nextSerial == old(host.nextSerial) + i
      invariant rt.nodeFiles == ApplyCopies(old(rt.nodeFiles), toolsNode, ms[..i])
    {
      var manifest := ms[i];
      var dest := ManifestPath(manifest.name);
      assert ms[..i + 1][..i] == ms[..i];

      var tmp := host.CreateTemp(manifest.name, steps[i] == CreateTempFails);
      if tmp.None? {
        return CreateTempFailed(i);
      }
      var t := tmp.value;

      var written := host.WriteString(t, manifest.manifest,
                                      if steps[i].WriteFails? then Some(steps[i].written) else None);
      if !written {
        assert "" + Truncate(manifest.manifest, steps[i].written) == Truncate(manifest.manifest, steps[i].written);
        return WriteFailed(i, t);
      }

      assert "" + manifest.manifest == manifest.manifest;
      var copied := rt.CopyToNode(host, t, dest, toolsNode, steps[i] == CopyFails);
      if !copied {
        return CopyToNodeFailed(i, t);
      }

      host.Remove(t);
      assert host.files == old(host.files);
    }
    assert ms[..|ms|] == ms;
    return Copied;
  }
}
