// The part of Docker's data that the supervisor reads and writes (internal/docker/client.go).
module Docker {
  import opened Wrappers

  /** A container ID; 0 stands for the empty string. */
  type Id = nat

  datatype MountType = Bind | Volume | Tmpfs | NamedPipe | Cluster | Image {
    function Name(): string {
      match this
      case Bind => "bind"
      case Volume => "volume"
      case Tmpfs => "tmpfs"
      case NamedPipe => "npipe"
      case Cluster => "cluster"
      case Image => "image"
    }
  }

  /** A mount to create. */
  datatype MountDef = MountDef(kind: MountType, source: string, target: string, readOnly: bool)

  /** A mount as inspect shows it; a volume has a name, other mounts have none. */
  datatype MountPoint = MountPoint(kind: MountType, name: string, source: string, destination: string, rw: bool)

  /** A container's labels, with the three the supervisor writes read out: is it the
      engine component, which container does it replace (0: none), and the command that
      its base-command label decodes to ([]: nothing is recovered from it). */
  datatype Labels = Labels(component: bool, successorOf: Id, baseCommand: seq<string>, other: map<string, string>)

  datatype Spec = Spec(name: string, image: string, command: seq<string>, env: seq<string>,
                       labels: Labels, mounts: seq<MountDef>, networks: set<string>)

  datatype Container = Container(name: string, image: string, command: seq<string>, env: seq<string>,
                                 labels: Labels, mounts: seq<MountPoint>, networks: set<string>, running: bool)

  /** gobackup_container.* settings; a field the labels do not set is empty or None, and
      a command is already split into its fields. */
  datatype Config = Config(image: string, command: Option<seq<string>>, env: seq<string>,
                           networks: set<string>, labels: map<string, string>)
}
