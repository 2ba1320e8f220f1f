# gcp-inventory, modelled in Dafny

`gcp-inventory.js` audits every Google Cloud project it can list. Per project it lists the VMs,
disks, snapshots, firewall rules and IAM policy, and writes one CSV report:

- the report title `GCP INVENTORY`;
- for each kind that has rows, in a fixed order: a separator line `,`, a title line, a column
  header line, then one comma-joined line per row.

This project models the part of the script that is logic rather than API plumbing:

- **Path trimming.** `split('/').pop()` keeps the last segment of a zone, disk type, network or
  IAM role URL.
- **Row projections.** VM, disk, snapshot, firewall and IAM records become report rows.
- **The firewall allow string.** The nested loops that fold a rule's `allowed` entries into
  `tcp:22;tcp:80;icmp`.
- **The IAM inversion.** The double loop that turns `role -> members` bindings into the
  `userRoles` dictionary (`member -> roles`, joined by `'; '`), and the split of each member key
  on `:`.
- **The header-once writer.** The write stream with one "header printed" flag per kind. A kind's
  header goes before its first row only, and never appears when the kind has no rows.
- **The audit.** `runAudit` and the five `list...` functions, which drive the writer project by
  project.

Modules:

- `Strings`: JavaScript `split` on one character, and `join` with any separator.
- `Schema`: records, kinds, column lists and the VM, disk and snapshot projections.
- `Firewall`: the allow string.
- `Iam`: the inversion and the IAM rows.
- `Report`: the `Writer` class and `Render`, the specification of what the writer's buffer holds.
  Rows grouped by kind render as the assembled sectioned document (`Assemble`).
- `Inventory`: the list functions and `RunAudit`.

The provider's API calls are parameters. Each is a function from a project id to the records it
returns, or `None` when the call fails or `data[0]` is undefined. The exception is
`getIamPolicy`, which always returns a list of bindings (see "Left out").

Details of the script's behaviour the model keeps:

- A member's roles are joined with `'; '` (semicolon and space), not `';'` (gcp-inventory.js:270).
- A VM's machine type is not trimmed; its zone is (gcp-inventory.js:80-81).
- The column names are the ones the script writes (`vmName`, `diskSize`, ...).
- A VM with no network interface or no access config, and a firewall rule with no `allowed`
  list, make their callback throw. The `.catch` then loses that record and every later record
  of the same project and kind, while rows already written stay.
- `user` is `account[1]`, the text between the first and the second `:`, not everything after
  the first `:`. A key with no `:` gives JavaScript's `undefined`, which prints as `undefined`.
- `if(userRoles[user])` is false both for an absent key and for an empty string. An empty role
  is therefore overwritten, not appended to (`AccumulatedDropsLeadingEmpty`).
- `if(ports)` is true for an empty port list. Such an entry adds nothing, but the `;` before it
  is still written (`AllowStringEmptyPortsExample`).
- The kinds are listed one after another (each `list...` call is awaited), not concurrently.
  When `getProjects` fails, `listVMs(undefined)` throws and the report holds only its title.

The five `...HeaderPrinted` fields are one `headerPrinted` field of the writer. It holds a
record of five booleans, and a row of kind `k` reads and sets the `k` flag only.

## Model

| member | source | states |
|---|---|---|
| Strings.Split | gcp-inventory.js:80 | `split` always gives at least one piece; it gives exactly one piece, the input itself, exactly when the separator does not occur |
| Strings.JoinOfSplit | gcp-inventory.js:80 | joining the pieces of a split with the separator gives the input back |
| Strings.SplitLastPiece | gcp-inventory.js:80 | the piece `pop()` returns is a suffix of the input with no separator in it, and it is preceded by a separator whenever the input has one |
| Strings.SplitFirstPiece | gcp-inventory.js:277-278 | the first piece is a separator-free prefix; when a separator occurs it follows that prefix, and the remaining pieces are those of the text after it |
| Schema.LastSegment | gcp-inventory.js:80 | `path.split('/').pop()` (also used at lines 120, 122, 189 and 265) is a suffix of the path with no `/`; it is the whole path when the path has no `/`, and a `/` precedes it otherwise |
| Schema.LastSegmentAfterSlash | gcp-inventory.js:265 | a role such as `roles/owner` trims to the name after its last `/` |
| Schema.SplitMember | gcp-inventory.js:277-279 | `userType` is the text before the first `:`; `user` is the text between the first and the second `:` (or the end), or `undefined` when the key has no `:` |
| Schema.SplitMemberOfPair | gcp-inventory.js:277-279 | a key `type:user` whose halves hold no `:` splits into exactly those halves |
| Schema.VmRow | gcp-inventory.js:78-94 | a VM row has 8 fields, one per VM column: project id, lifecycle state, name, trimmed zone, untrimmed machine type, then the internal IP of the first network interface and the NAT IP of that interface's first access config, then the status; a VM with no network interface or no access config has no row (the callback throws) |
| Schema.DiskRow | gcp-inventory.js:118-131 | a disk row has 6 fields, one per disk column, led by the project id, with the zone and the disk type each trimmed to their last `/`-segment |
| Schema.SnapshotRow | gcp-inventory.js:157-164 | a snapshot row has 5 fields, one per snapshot column, led by the project id |
| Firewall.AppendPorts | gcp-inventory.js:199-204 | the inner loop appends the entry's `protocol:port` texts, `;`-separated, to what was built so far |
| Firewall.FirewallAllow | gcp-inventory.js:190-208 | the nested loops build exactly `AllowString`: each entry's contribution, `;`-separated |
| Firewall.AllowStringIsJoinedTokens | gcp-inventory.js:190-208 | when no entry has an empty port list, the allow string is every `protocol:port` (or bare protocol) token in order, joined by `;` |
| Firewall.AllowStringDecodes | gcp-inventory.js:190-208 | splitting such an allow string on `;` gives its tokens back, provided no token holds a `;` |
| Firewall.AllowStringOfNoEntries | gcp-inventory.js:190-192 | an empty `allowed` list gives the empty string |
| Firewall.AllowStringExample | gcp-inventory.js:190-208 | `[tcp [22, 80], icmp]` gives `tcp:22;tcp:80;icmp` |
| Firewall.AllowStringEmptyPortsExample | gcp-inventory.js:193-204 | `[tcp [], icmp]` gives `;icmp`: the separator is written before an entry that adds nothing |
| Firewall.FirewallRow | gcp-inventory.js:188-215 | a rule's row has 6 fields, with the network trimmed and the allow string last; a rule with no `allowed` list has no row (`allowed.length` throws) |
| Iam.InvertBindings | gcp-inventory.js:262-275 | the double loop leaves a key for exactly the members first met, in first-insertion order, and each key maps to the accumulated trimmed roles of its grants |
| Iam.AddMembers | gcp-inventory.js:266-274 | the inner loop adds one binding's grants to the inversion built so far |
| Iam.InsertGrant | gcp-inventory.js:268-273 | one update of `userRoles` (append `'; ' + role` when the value is truthy, store the role otherwise, adding the key when new) keeps order and values in step with the grants seen |
| Iam.FirstSeenMembers | gcp-inventory.js:269-276 | a member is a key exactly when some grant names it |
| Iam.RolesForUnseen | gcp-inventory.js:269-276 | a member that is not a key was granted no role |
| Iam.FirstSeenDistinct | gcp-inventory.js:276 | no member gets two keys |
| Iam.FirstSeenOrder | gcp-inventory.js:276 | keys come in the order of their members' first grants |
| Iam.AccumulatedIsJoin | gcp-inventory.js:269-273 | when no role is empty, a member's value is its roles, in binding encounter order, joined by `'; '`, and it is non-empty |
| Iam.AccumulatedDropsLeadingEmpty | gcp-inventory.js:269-273 | in general a member's value is its roles joined by `'; '` once the leading empty roles are dropped |
| Iam.IamRow | gcp-inventory.js:277-287 | an IAM row has 4 fields: the project id, the member's type and user as `SplitMember` gives them, then the roles |
| Iam.IamRowsAreMembers | gcp-inventory.js:262-288 | a project's IAM rows are one per key in first-insertion order; each holds that member's type, user and roles joined by `'; '` |
| Iam.IamRowsOfTwoBindings | gcp-inventory.js:262-288 | bindings `r1: [m1]` and `r2: [m1, m2]` give the rows `(t1, u1, "r1; r2")` then `(t2, u2, "r2")` |
| Report.Writer.constructor | gcp-inventory.js:38 | the stream starts with the title `GCP INVENTORY` and every flag clear |
| Report.Writer.WriteRow | gcp-inventory.js:87-94 | on a kind's first row (flag clear) the separator, title and column header lines are written before the row and the flag is set; afterwards only the row's line is appended; nothing already written changes, and the same holds at lines 124-131, 158-164, 209-215 and 281-287 |
| Report.FlagsOfStarted | gcp-inventory.js:87-92 | a kind's flag is set exactly when a row of that kind has been written |
| Report.RenderNextRow | gcp-inventory.js:87-94 | writing one more row appends its line, preceded by its kind's head exactly when no row of that kind was written before |
| Report.RenderExtends | gcp-inventory.js:94 | writing more rows never changes what is already in the buffer |
| Report.RenderStartsWithTitle | gcp-inventory.js:38 | the buffer always begins with the title |
| Report.RenderTagged | gcp-inventory.js:87-94 | writing rows of a kind not yet started appends exactly that kind's section: its head once, before the first row, and nothing when there are no rows |
| Report.RenderGrouped | gcp-inventory.js:37-44 | writing the kinds one after another gives the title, then each non-empty section in kind order with its head written exactly once |
| Report.LineSplitsBack | gcp-inventory.js:94 | a row's line is its fields joined by `,` and a newline; when no field holds a comma it splits back into exactly those fields |
| Inventory.RowsUntilFailurePrefix | gcp-inventory.js:77-97 | a project's rows are the projections of a prefix of its records, and the record right after that prefix, if any, is one whose projection throws |
| Inventory.RowsOfSoundRecords | gcp-inventory.js:77-95 | when no projection throws, the project's rows are exactly its records' projections, one per record and in record order |
| Inventory.AuditSectionsWidth | gcp-inventory.js:90-94 | every row the audit writes, in each of the five sections, has as many fields as that section's column header (also lines 127-131, 161-164, 212-215 and 284-287) |
| Inventory.KindRowsWidth | gcp-inventory.js:66-102 | when every row a projection gives has `n` fields, every row of the section built from it has `n` fields |
| Inventory.AllIamRowsWidth | gcp-inventory.js:262-288 | every IAM row of every project has one field per IAM column |
| Inventory.KindRowsAppend | gcp-inventory.js:66-102 | a kind's rows over a list of projects are the rows over any split of it, concatenated in order |
| Inventory.WriteProjectRows | gcp-inventory.js:74-99 | the callback writes the rows of one project's records in order, stopping at the first record whose projection throws |
| Inventory.ListProject | gcp-inventory.js:73-99 | a project whose call fails or returns no list contributes nothing; otherwise its records' rows are written |
| Inventory.ListKind | gcp-inventory.js:64-103 | appends every project's rows of one kind, project after project |
| Inventory.ListVMs | gcp-inventory.js:64-103 | appends the VM rows of every project |
| Inventory.ListDisks | gcp-inventory.js:105-140 | appends the disk rows of every project |
| Inventory.ListSnapshots | gcp-inventory.js:142-173 | appends the snapshot rows of every project |
| Inventory.WriteProjectFirewalls | gcp-inventory.js:184-220 | writes one project's firewall rows, with each allow string built by `FirewallAllow`, up to the first rule with no `allowed` list |
| Inventory.ListProjectFirewalls | gcp-inventory.js:184-220 | a project whose firewall call fails or returns no list contributes nothing; otherwise its rules' rows are written |
| Inventory.ListFirewalls | gcp-inventory.js:175-224 | appends the firewall rows of every project |
| Inventory.WriteProjectIams | gcp-inventory.js:262-288 | writes one project's IAM rows, one per `userRoles` entry in first-insertion order |
| Inventory.ListIams | gcp-inventory.js:242-299 | appends the IAM rows of every project |
| Inventory.RunAudit | gcp-inventory.js:37-47 | the report is the title then every non-empty section in kind order, each with its head once; when listing the projects failed it is the title alone |

## Left out

- The Google client calls (`getProjects`, `getVMs`, `getDisks`, `getSnapshots`, `getFirewalls`, `getIamPolicy`) are foreign calls. Their results are parameters of `RunAudit`.
- `authorize` is left out for the same reason. The model assumes it succeeds.
- The snapshot query options `maxResults` and `orderBy` are applied by the provider. The model takes whatever records the call returns.
- `uploadFileToBucket`, `sendFileByEmail`, `fs.createWriteStream` and the `getenv` configuration are I/O and delivery, so they are left out.
- The `new Date().toISOString()` file name depends on the clock, so it is left out.
- Inventory.ListKind: `Promise.all` lets the projects' callbacks complete in any order. Each callback writes its project's rows in one uninterrupted run (there is no `await` inside it), so only the order of the project batches within a kind may differ from list order. The model writes the batches in list order. Rows are never interleaved across kinds, because each `list...` call is awaited before the next.
- Schema.DiskRow, Schema.SnapshotRow, Schema.VmRow, Firewall.FirewallRow, Iam.Grants: other absent fields are not modelled. In the source a missing `vm.zone` (gcp-inventory.js:80), `disk.zone` or `disk.type` (120, 122), `firewall.network` (189) or a binding's `role` or `members` (265-266) throws, and a missing scalar field prints `undefined`. The records here make those fields required strings, so a disk or snapshot always gives a row, and only the failures described above are modelled.
- Inventory.ListIams: the IAM error path (gcp-inventory.js:255-260) is left out. It resolves and then dereferences a missing `response`. So is a policy without a `bindings` list. The model takes every IAM call to return a list of bindings.
- Iam.InvertBindings: `userRoles` is a JavaScript array used as a dictionary. The model does not capture two things: `Object.entries` lists integer-like keys first, in numeric order, and keys such as `length` behave specially. Member keys (`user:...`, `serviceAccount:...`) are neither.
- Numeric record fields (`sizeGb`, `diskSizeGb`, `priority`) are carried as the text they print as. No arithmetic is performed on them.
- `sample.js`, an exploratory script with no logic, is not part of this model.
