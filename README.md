# Azure Entra user bulk importer — a Dafny model of the import loop

The importer reads `UserCreate.csv`. It drops the header line and turns every
other line into a `UserData` record (display name, mail nickname, user
principal name, password, role name). For each record, in file order, it does
four things against the directory through the Graph client:

- It fetches the first page of users and skips the record if a user already
  has the same principal name.
- Otherwise it creates the user, enabled, with a password that must be changed
  at the next sign-in.
- It looks up the directory roles whose display name equals the record's role
  name.
- If the lookup returns a role, it adds the new user, by its directory id, as
  a member of the first one.

A `ServiceException` from any of these calls ends that record, and the loop
goes on with the next one. A data line with fewer than five comma-separated
pieces raises an out-of-range index while the lazy record sequence is being
enumerated. That happens outside the per-record `try`, so it ends the run.

The model has six modules:

- `Options`, `Models` (`models.dfy`): `Option` and the `UserData` record.
- `UserCsv` (`user_csv.dfy`): the header skip, the comma split and the line
  parse, written as functions. The lazy enumeration is `GetUsersToRegister`.
  It returns the records before the first short line and, if there is one,
  that line's index.
- `Directory` (`directory.dfy`): the directory as a value (`DirState`: users,
  role catalog, memberships, the next free id, the listing page size). It also
  holds the class `Graph`, whose four methods are the four calls. Every call
  is appended to the client's ghost call log `calls`. Only `AddUser` and
  `AddMemberReference` change the directory; `ListUsers` and
  `DirectoryRolesNamed` only read it.
- `Provisioning` (`provisioning.dfy`): the specification functions. `Step` is one record,
  `Provision` is a sequence of records, and `MainProcessRun` is a whole run.
  Lemmas state skip, create, role, failure-isolation and replay properties of
  these functions.
- `MainProcessServices` (`main_process_service.dfy`): the class
  `MainProcessService`. Its `MainProcess` is the `foreach` loop, proved against
  `MainProcessRun`. Its `RegisterUser` is the body of the `try`, proved against
  `Step`. `Dispose` sets the dispose flag.

Service faults are an input. `faults[k]` names the call, if any, that raises a
service exception for the k-th record. The directory also refuses to create a
principal name it already holds. The user listing returns only its first
`pageSize` users, as the code reads only `CurrentPage`.

A short data line is not a per-record failure: the out-of-range index is
thrown outside the `try`, so it ends the run (`RunStatus.EndedByShortLine`).
The code never checks the fields' formats.

## Model

| member | source | states |
|---|---|---|
| `Models.FieldsOf` | AzureEntraUserBulkImporter/Models/UserData.cs:9-16 | a record has exactly five string fields; their order (display name, mail nickname, principal name, password, role name) is the column order that ParseLine's contract relies on |
| `UserCsv.Split` | AzureEntraUserBulkImporter/Services/MainProcessService.cs:143 | splitting on ',' yields one more piece than there are commas (empty pieces kept), and no piece contains a comma |
| `UserCsv.JoinSplit` | AzureEntraUserBulkImporter/Services/MainProcessService.cs:143 | gluing the pieces back with ',' gives the original line: the split loses nothing |
| `UserCsv.SplitJoin` | AzureEntraUserBulkImporter/Services/MainProcessService.cs:143 | splitting comma-free pieces joined by ',' gives those pieces back (there is no quoting) |
| `UserCsv.ParseLine` | AzureEntraUserBulkImporter/Services/MainProcessService.cs:143-151 | a line yields a record exactly when it has at least four commas, and then field i is piece i for i in 0..4 |
| `UserCsv.FormatThenParse` | AzureEntraUserBulkImporter/Services/MainProcessService.cs:143-151 | a record with comma-free fields written as a line parses back to itself |
| `UserCsv.ExtraPiecesIgnored` | AzureEntraUserBulkImporter/Services/MainProcessService.cs:144-151 | pieces after the fifth, whatever they hold, do not change the record |
| `UserCsv.GetUsersToRegister` | AzureEntraUserBulkImporter/Services/MainProcessService.cs:137-152 | 0 or 1 lines give no records; a full enumeration of n lines gives n-1 records; an aborted one stops at a data line that does not parse, after one record per earlier data line |
| `UserCsv.RecordsInFileOrder` | AzureEntraUserBulkImporter/Services/MainProcessService.cs:141-151 | record i is the parse of line i+1: only the header is dropped and file order is kept |
| `UserCsv.AbortsAtFirstShortLine` | AzureEntraUserBulkImporter/Services/MainProcessService.cs:141-151 | the enumeration completes exactly when every data line parses, and otherwise aborts at the first one that does not |
| `UserCsv.WellFormedFileYieldsAll` | AzureEntraUserBulkImporter/Services/MainProcessService.cs:141-143 | when every data line has at least five pieces, a file of n lines yields n-1 records, and 0 or 1 lines yield none |
| `UserCsv.AbortedEnumerationIsFinal` | AzureEntraUserBulkImporter/Services/MainProcessService.cs:71 | once a short line has thrown, the lines after it change nothing |
| `UserCsv.HeaderIgnored` | AzureEntraUserBulkImporter/Services/MainProcessService.cs:142 | the header line's content never affects the records |
| `Directory.FirstPage` | AzureEntraUserBulkImporter/Services/MainProcessService.cs:90-91 | the listing is a prefix of the directory's users, of length min(pageSize, number of users) |
| `Directory.RolesNamed` | AzureEntraUserBulkImporter/Services/MainProcessService.cs:102-105 | the filter returns only catalog roles with exactly that display name, and every such role |
| `Directory.FirstHitIsEarliest` | AzureEntraUserBulkImporter/Services/MainProcessService.cs:107 | the first hit is the earliest catalog entry with that display name |
| `Directory.NoHitMeansNoSuchRole` | AzureEntraUserBulkImporter/Services/MainProcessService.cs:107-110 | the lookup is empty exactly when no catalog role has the name |
| `Directory.Graph.ListUsers` | AzureEntraUserBulkImporter/Services/MainProcessService.cs:90 | the call is logged; it fails exactly when the fault says so; otherwise it returns the first page; the directory never changes |
| `Directory.Graph.AddUser` | AzureEntraUserBulkImporter/Services/MainProcessService.cs:99 | the call is logged; the create succeeds exactly when it is not faulted and the principal name is free; success appends the account with the next id, and failure changes nothing |
| `Directory.Graph.DirectoryRolesNamed` | AzureEntraUserBulkImporter/Services/MainProcessService.cs:102-105 | the call is logged; it fails exactly when faulted; otherwise it returns the roles with that display name, in catalog order; the directory never changes |
| `Directory.Graph.AddMemberReference` | AzureEntraUserBulkImporter/Services/MainProcessService.cs:117-119 | the call is logged; it fails exactly when faulted, changing nothing; otherwise it adds one membership and nothing else |
| `Provisioning.UserFor` | AzureEntraUserBulkImporter/Services/MainProcessService.cs:76-87 | the user object carries the record's display name, mail nickname, principal name and password, with AccountEnabled and ForceChangePasswordNextSignIn both true |
| `Provisioning.Step` | AzureEntraUserBulkImporter/Services/MainProcessService.cs:73-127 | a record changes the users only by one appended account with the next id, and only when its outcome says the account was created; it adds a membership only for CreatedWithRole; it never touches the role catalog |
| `Provisioning.SkipIffListed` | AzureEntraUserBulkImporter/Services/MainProcessService.cs:90-96 | a record is skipped exactly when the listing succeeds and shows its principal name (exact, case-sensitive); a skipped record changes nothing |
| `Provisioning.RoleAssignment` | AzureEntraUserBulkImporter/Services/MainProcessService.cs:102-120 | an assignment goes to the first role found, with the new account's directory id; CreatedNoRole happens only when no role has the name, and conversely a new name whose create and role lookup succeed with no role of that name always ends CreatedNoRole, never Failed(AddMember), which needs a role to be found |
| `Provisioning.FailureCause` | AzureEntraUserBulkImporter/Services/MainProcessService.cs:124-127 | a record fails only at the faulted call, or at the create when the directory already holds the principal name; conversely, a fault at any call the record reaches ends the record there with that call's failure (a listing fault, a create fault for a name not on the first page, a role-lookup fault after a create, a membership fault when a role was found) |
| `Provisioning.CallsFor` | AzureEntraUserBulkImporter/Services/MainProcessService.cs:90-120 | the calls a record makes: always the listing first, then a prefix of create, role lookup, membership add; the create is made unless the record was skipped or its listing failed, the role lookup exactly when the account was created, and the membership add exactly for CreatedWithRole or a failed add |
| `Provisioning.CallsPerRecord` | AzureEntraUserBulkImporter/Services/MainProcessService.cs:90-120 | one record lists the users exactly once and makes every other call at most once |
| `Provisioning.CallLogCounts` | AzureEntraUserBulkImporter/Services/MainProcessService.cs:71-128 | a run lists the users exactly once per record and makes each other call, the create and the membership add among them, at most once per record |
| `Provisioning.FaultFreeOutcome` | AzureEntraUserBulkImporter/Services/MainProcessService.cs:90-122 | without faults, a new principal name gives CreatedWithRole on the first matching role, or CreatedNoRole when no role matches |
| `Provisioning.Examples` | AzureEntraUserBulkImporter/Services/MainProcessService.cs:90-120 | worked cases: role exists gives one account and one membership; role missing gives the account alone; a listed name is skipped |
| `Provisioning.StepPreservesWellFormed` | AzureEntraUserBulkImporter/Services/MainProcessService.cs:99 | principal names and ids stay unique, every account id and member id stays below the next id, and a created account's id is fresh |
| `Provisioning.StepGrantIsNew` | AzureEntraUserBulkImporter/Services/MainProcessService.cs:110-119 | on a well-formed directory the membership a record adds was not there before, so the membership set grows by exactly one |
| `Provisioning.CreatedAccounts` | AzureEntraUserBulkImporter/Services/MainProcessService.cs:76-99 | at most one created account per record, each enabled with forced password change and with consecutive ids |
| `Provisioning.Grants` | AzureEntraUserBulkImporter/Services/MainProcessService.cs:110-120 | at most one reported membership per record |
| `Provisioning.Provision` | AzureEntraUserBulkImporter/Services/MainProcessService.cs:71-128 | every record gets exactly one outcome, whatever the earlier records' outcomes |
| `Provisioning.ProvisionAccounts` | AzureEntraUserBulkImporter/Services/MainProcessService.cs:71-128 | after a run the users are the old users unchanged, followed by exactly the accounts of the records reported created, in record order; roles are untouched |
| `Provisioning.ProvisionMemberships` | AzureEntraUserBulkImporter/Services/MainProcessService.cs:110-120 | after a run the memberships are the old ones plus exactly those reported as CreatedWithRole |
| `Provisioning.AtMostOneCreateAndOneGrantPerRecord` | AzureEntraUserBulkImporter/Services/MainProcessService.cs:71-128 | a run adds at most one account and at most one membership per record and never removes or changes an existing account |
| `Provisioning.ProvisionPrefix` | AzureEntraUserBulkImporter/Services/MainProcessService.cs:71 | records are visited in order: a prefix of the records gives a prefix of the outcomes and of the accounts |
| `Provisioning.RecordProcessedAfterPrefix` | AzureEntraUserBulkImporter/Services/MainProcessService.cs:73-127 | record k is processed from the state that records 0..k-1 left, whatever their outcomes: a failure never stops later records |
| `Provisioning.ProvisionPreservesWellFormed` | AzureEntraUserBulkImporter/Services/MainProcessService.cs:71-128 | a whole run keeps principal names and ids unique |
| `Provisioning.CreatedAccountsPersist` | AzureEntraUserBulkImporter/Services/MainProcessService.cs:99-127 | an account created for a record stays to the end of the run even if its role lookup or assignment failed: nothing is rolled back |
| `Provisioning.PrincipalPresentAfterSkipOrCreate` | AzureEntraUserBulkImporter/Services/MainProcessService.cs:90-99 | after a run, every record that was skipped or whose account was created (including those whose role lookup or membership add then failed) has its principal name in the directory |
| `Provisioning.AllListedAllSkipped` | AzureEntraUserBulkImporter/Services/MainProcessService.cs:90-96 | if every principal name is on the first page and no listing fails, every record is skipped and the directory is unchanged |
| `Provisioning.ReplaySkipsEverything` | AzureEntraUserBulkImporter/Services/MainProcessService.cs:90-96 | replaying the records after a run in which every record was skipped or got its account, role lookup or membership add failures included (all users on one page, no listing fault), skips every record and changes nothing, so missed role assignments are not retried |
| `Provisioning.PresentNamesChangeNothing` | AzureEntraUserBulkImporter/Services/MainProcessService.cs:90-99 | when every record's principal name is already in the directory, on the first page or beyond it, a run leaves the directory unchanged and each record is skipped, fails at the listing, or has its create refused |
| `Provisioning.ReplayCreatesNothing` | AzureEntraUserBulkImporter/Services/MainProcessService.cs:90-99 | replaying the records after a run in which every record was skipped or got its account creates no account and adds no membership, for any directory size and any faults: a name beyond the first page is not skipped, but its create is refused |
| `Provisioning.MainProcessRun` | AzureEntraUserBulkImporter/Services/MainProcessService.cs:63-131 | the run ends normally exactly when the enumeration completes, with one outcome per enumerated record |
| `Provisioning.EveryRecordAttempted` | AzureEntraUserBulkImporter/Services/MainProcessService.cs:69-128 | a file whose data lines all have at least five pieces gets exactly n-1 attempts, however many fail; otherwise the run ends at the first short line after one attempt per earlier line |
| `MainProcessServices.MainProcessService.constructor` | AzureEntraUserBulkImporter/Services/MainProcessService.cs:47-55 | the service holds the given client and starts undisposed |
| `MainProcessServices.MainProcessService.RegisterUser` | AzureEntraUserBulkImporter/Services/MainProcessService.cs:73-127 | the calls of one try block leave the directory and report the outcome that Step specifies, and append to the call log exactly the calls CallsFor gives for that outcome |
| `MainProcessServices.MainProcessService.MainProcess` | AzureEntraUserBulkImporter/Services/MainProcessService.cs:63-131 | the loop leaves the directory, the outcomes and the run status that MainProcessRun specifies for the old directory, the lines and the faults, and appends to the call log the calls of each outcome in record order |
| `MainProcessServices.MainProcessService.Dispose` | AzureEntraUserBulkImporter/Services/MainProcessService.cs:156-166 | after any call the flag is set and nothing else can change; a call on a disposed service changes nothing (idempotent) |

## Left out

- Console prompts and output (`ReadKey`/`WriteLine` around the loop and per record): operator I/O with no effect on the directory. The per-record outcome is returned instead of printed.
- Reading `UserCreate.csv` from disk: the model takes the file's lines as input.
- Graph transport, authentication (the token provider) and the OData filter string. The role query is modelled as an exact display-name match; names containing `'` are not quoted and are not modelled.
- Pages of the user listing after the first: the code never reads them, so the model's listing is the first page only.
- Dependency wiring, configuration loading and the process entry point with its unhandled-exception handler: process plumbing. A run that ends at a short line is reported as `EndedByShortLine`, which stands for the exception reaching that handler.
- async/await and the cancellation token source: the code never checks the token, and there is no concurrency.
- Changes made to the directory by others during a run: the directory changes only through the model's calls.
- The reasons the directory rejects a create other than a taken principal name, such as its password policy: these are part of the create fault in the oracle.
- Directory ids are numbers drawn from a counter, not GUID strings. A role whose id is null is not modelled: a found role always has an id.
- `Directory.Graph.AddMemberReference`: does not model the directory refusing a membership that already exists. On a directory satisfying `WellFormed` the import never asks for one (`StepGrantIsNew`).
- The order of the user listing: the first page is modelled as the first `pageSize` accounts in creation order, an order the directory service does not promise. `ReplaySkipsEverything` assumes the whole listing fits on the first page, where the order does not matter; `ReplayCreatesNothing` covers any directory size.
- The `Mail` of the created user: the code only prints it.
- Case-insensitive principal names: the model's directory refuses a create only for an exact, case-sensitive duplicate, matching the case-sensitive comparison in `Services/MainProcessService.cs` line 91. A directory that also refuses names differing only in case is covered only by a create fault in the fault list.
