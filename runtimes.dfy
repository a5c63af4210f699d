/** The container runtime, reduced to the state the manifest code touches: the volumes
    it holds and the files placed inside node containers. Each call takes the outcome
    the real runtime would report; a failing call changes nothing. */
module Runtimes {
  import opened K3dTypes
  import opened Os

  class Runtime {
    /** Created volumes, by name, with their labels. */
    var volumes: map<string, map<string, string>>
    /** Files inside node containers, keyed by node and in-container path. */
    var nodeFiles: map<(Node, string), string>

    constructor ()
      ensures volumes == map[] && nodeFiles == map[]
    {
      volumes := map[];
      nodeFiles := map[];
    }

    /** Creates (or re-creates) the volume `name` with `labels`. */
    method CreateVolume(name: string, labels: map<string, string>, fails: bool) returns (ok: bool)
      modifies this`volumes
      ensures ok == !fails
      ensures volumes == if ok then old(volumes)[name := labels] else old(volumes)
    {
      ok := !fails;
      if ok {
        volumes := volumes[name := labels];
      }
    }

    /** Copies the whole content of the host file `src` to `dest` inside `node`.
        Copying a file that does not exist fails too. */
    method CopyToNode(host: HostFs, src: TempPath, dest: string, node: Node, fails: bool) returns (ok: bool)
      modifies this`nodeFiles
      ensures ok == (!fails && src in host.files)
      ensures nodeFiles == if ok then old(nodeFiles)[(node, dest) := host.files[src]] else old(nodeFiles)
    {
      ok := !fails && src in host.files;
      if ok {
        nodeFiles := nodeFiles[(node, dest) := host.files[src]];
      }
    }
  }
}
