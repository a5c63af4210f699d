/** The k3d object graph that the manifest code reads and updates: nodes, clusters,
    manifests and the cluster-creation options bag, with the naming constants they use. */
module K3dTypes {

  /** Name prefix shared by every object k3d creates. Its value is defined outside this
      model, so it is left unspecified: every property below holds whatever it is. */
  const DefaultObjectNamePrefix: string

  /** Label key that records the owning cluster's name on runtime objects. */
  const LabelClusterName: string

  /** Label key under which the manifest volume's name is recorded in the global labels. */
  const LabelManifestVolume: string

  /** Role of a node, as carried by its role tag. */
  datatype Role = ServerRole | AgentRole | NoRole | LoadBalancerRole | RegistryRole

  /** A manifest document: its logical name and its raw payload. Never changed by this core. */
  datatype Manifest = Manifest(name: string, manifest: string)

  /** A node of the cluster. Go passes nodes around by pointer, so a node is an object:
      appending to `volumes` through any reference is seen by every holder of it. */
  class Node {
    var role: Role
    /** Ordered mount specifications, each `sourceVolume:targetPath`. */
    var volumes: seq<string>

    constructor (role: Role, volumes: seq<string>)
      ensures this.role == role && this.volumes == volumes
    {
      this.role := role;
      this.volumes := volumes;
    }
  }

  /** The fields of a cluster that the manifest code reads or writes. `nodes` holds
      references to the cluster's node objects, in the cluster's order. */
  class Cluster {
    var name: string
    var nodes: seq<Node>
    var manifests: seq<Manifest>
    var volumes: seq<string>
    var manifestVolume: string

    constructor (name: string, nodes: seq<Node>, manifests: seq<Manifest>)
      ensures this.name == name && this.nodes == nodes && this.manifests == manifests
      ensures volumes == [] && manifestVolume == ""
    {
      this.name := name;
      this.nodes := nodes;
      this.manifests := manifests;
      volumes := [];
      manifestVolume := "";
    }
  }

  /** The options bag of cluster creation; only its global-label map is used here. */
  class ClusterCreateOpts {
    var globalLabels: map<string, string>

    constructor (globalLabels: map<string, string>)
      ensures this.globalLabels == globalLabels
    {
      this.globalLabels := globalLabels;
    }
  }
}
