/** The records the provider returns, the report's sections and columns, and the
    projection of one VM, disk or snapshot record onto one report row. */
module Schema {
  import opened Strings

  datatype Option<T> = None | Some(value: T)

  /** A JavaScript value that may be `undefined`, as string concatenation renders it. */
  function Text(v: Option<string>): string
  {
    match v
    case Some(s) => s
    case None => "undefined"
  }

  /** One report row: its fields, in column order. */
  type Row = seq<string>

  /** The project metadata the script reads: `projectId` and `lifecycleState`. */
  datatype Project = Project(projectId: string, lifecycleState: string)

  datatype AccessConfig = AccessConfig(natIP: Option<string>)
  /** A missing `accessConfigs` list is the empty list here: both make `accessConfigs[0].natIP` throw. */
  datatype NetworkInterface = NetworkInterface(networkIP: string, accessConfigs: seq<AccessConfig>)
  datatype VmRecord = VmRecord(name: string, zone: string, machineType: string,
                               networkInterfaces: seq<NetworkInterface>, status: string)
  /** Numeric fields (`sizeGb`, `diskSizeGb`, `priority`) are carried as the text they print as. */
  datatype DiskRecord = DiskRecord(name: string, zone: string, sizeGb: string, diskType: string, status: string)
  datatype SnapshotRecord = SnapshotRecord(name: string, creationTimestamp: string, diskSizeGb: string, status: string)

  /** The report's sections, in the order the audit writes them. */
  datatype Kind = Vms | Disks | Snapshots | Firewalls | Iams

  const ReportTitle: string := "GCP INVENTORY\n"

  function SectionTitle(k: Kind): string
  {
    match k
    case Vms => "VMs"
    case Disks => "DISKS"
    case Snapshots => "SNAPSHOTS"
    case Firewalls => "FIREWALL RULES"
    case Iams => "IAM - USERS AND ROLES"
  }

  /** The column names of each section's header line. */
  function Columns(k: Kind): seq<string>
  {
    match k
    case Vms => ["projectId", "projectStatus", "vmName", "zone", "vmMachineType", "vnInternalIP", "vmExternalIP", "vmStatus"]
    case Disks => ["projectId", "diskName", "zone", "diskSize", "diskType", "diskStatus"]
    case Snapshots => ["projectId", "snapshotName", "snapshotCreationTimestamp", "snapshotDiskSizeGb", "snapshotStatus"]
    case Firewalls => ["projectId", "firewallName", "firewallNetwork", "firewallDirection", "firewallPriority", "firewallAllow"]
    case Iams => ["projectId", "userType", "user", "role"]
  }

  /** `path.split('/').pop()`: the text after the last `/`, or the whole path when it has none. */
  function LastSegment(path: string): (seg: string)
    ensures |seg| <= |path| && path[|path| - |seg|..] == seg
    ensures '/' !in seg
    ensures '/' !in path ==> seg == path
    ensures '/' in path ==> |seg| < |path| && path[|path| - |seg| - 1] == '/'
  {
    SplitLastPiece(path, '/');
    LastPiece(path, '/')
  }

  /** The segment after a path's last `/` is what is left. */
  lemma LastSegmentAfterSlash(dir: string, name: string)
    requires '/' !in name
    ensures LastSegment(dir + "/" + name) == name
  {
    var path := dir + "/" + name;
    var seg := LastSegment(path);
    assert path[|dir|] == '/';
    assert path[|path| - |name|..] == name;
  }

  /** The two halves of an IAM member such as `user:a@example.com`. */
  datatype Account = Account(userType: string, user: string)

  /** `account = key.split(':')`, `userType = account[0]`, `user = account[1]`: the text before
      the first `:`, and the text between the first and the second `:` (JavaScript's
      `undefined` when the key has no `:`). */
  function SplitMember(key: string): (a: Account)
    ensures |a.userType| <= |key| && key[..|a.userType|] == a.userType && ':' !in a.userType
    ensures ':' !in key ==> a.userType == key && a.user == "undefined"
    ensures ':' in key ==>
      var rest := key[|a.userType| + 1..];
      |a.userType| < |key| && key[|a.userType|] == ':' &&
      ':' !in a.user && |a.user| <= |rest| && rest[..|a.user|] == a.user &&
      (|a.user| == |rest| || rest[|a.user|] == ':')
  {
    SplitFirstPiece(key, ':');
    var account := Split(key, ':');
    if |account| > 1 then
      SplitFirstPiece(key[|account[0]| + 1..], ':');
      Account(account[0], account[1])
    else
      Account(account[0], "undefined")
  }

  /** A member written `type:user`, neither half holding a `:`, splits into those halves. */
  lemma SplitMemberOfPair(userType: string, user: string)
    requires ':' !in userType && ':' !in user
    ensures SplitMember(userType + ":" + user) == Account(userType, user)
  {
    SplitAtSeparator(userType, ':', user);
    assert userType + ":" + user == userType + [':'] + user;
  }

  /** The row of one VM (listVMs). The zone is trimmed to its last segment, the machine
      type is not; only the first network interface and its first access config are read,
      and a VM lacking either makes the projection throw. */
  function VmRow(p: Project, vm: VmRecord): (row: Option<Row>)
    ensures row.None? <==> vm.networkInterfaces == [] || vm.networkInterfaces[0].accessConfigs == []
    ensures row.Some? ==>
              |row.value| == |Columns(Vms)| == 8 && row.value[0] == p.projectId &&
              row.value[1] == p.lifecycleState && row.value[2] == vm.name &&
              row.value[3] == LastSegment(vm.zone) && row.value[4] == vm.machineType &&
              row.value[5] == vm.networkInterfaces[0].networkIP &&
              row.value[6] == Text(vm.networkInterfaces[0].accessConfigs[0].natIP) &&
              row.value[7] == vm.status
  {
    if vm.networkInterfaces == [] || vm.networkInterfaces[0].accessConfigs == [] then None
    else
      var nic := vm.networkInterfaces[0];
      Some([p.projectId, p.lifecycleState, vm.name, LastSegment(vm.zone), vm.machineType,
            nic.networkIP, Text(nic.accessConfigs[0].natIP), vm.status])
  }

  /** The row of one disk (listDisks): zone and disk type are trimmed to their last segment. */
  function DiskRow(p: Project, d: DiskRecord): (row: Option<Row>)
    ensures row.Some? && |row.value| == |Columns(Disks)| == 6 && row.value[0] == p.projectId
    ensures row.value[2] == LastSegment(d.zone) && row.value[4] == LastSegment(d.diskType)
    ensures '/' !in row.value[2] && '/' !in row.value[4]
  {
    Some([p.projectId, d.name, LastSegment(d.zone), d.sizeGb, LastSegment(d.diskType), d.status])
  }

  /** The row of one snapshot (listSnapshots): its fields as the provider gives them. */
  function SnapshotRow(p: Project, s: SnapshotRecord): (row: Option<Row>)
    ensures row.Some? && |row.value| == |Columns(Snapshots)| == 5 && row.value[0] == p.projectId
  {
    Some([p.projectId, s.name, s.creationTimestamp, s.diskSizeGb, s.status])
  }
}
