/** The service that runs the bulk import against the directory client, and
    its dispose flag. */
module MainProcessServices {
  import opened Options
  import opened Models
  import opened UserCsv
  import opened Directory
  import opened Provisioning

  class MainProcessService {
    const graphClient: Graph
    var isDisposed: bool

    constructor (graphClient: Graph)
      ensures this.graphClient == graphClient && !isDisposed
    {
      this.graphClient := graphClient;
      isDisposed := false;
    }

    /** The body of the per-record try block: existence check on the first
        page, create, role lookup, and the membership add when a role was
        found. A service exception ends the record with `Failed`. */
    method RegisterUser(user: UserData, fault: Fault) returns (outcome: Outcome)
      modifies graphClient
      ensures (graphClient.State(), outcome) == Step(old(graphClient.State()), user, fault)
      ensures graphClient.calls == old(graphClient.calls) + CallsFor(outcome)
    {
      ghost var log0 := graphClient.calls;
      var users := graphClient.ListUsers(fault == Some(Call.ListUsers));
      if users.ServiceException? {
        return Failed(users.call);
      }
      if HasPrincipal(users.value, user.userPrincipalName) {
        return Skipped;
      }
      var afterInfo := graphClient.AddUser(UserFor(user), fault == Some(Call.CreateUser));
      AppendAssoc(log0, [Call.ListUsers], [Call.CreateUser]);
      if afterInfo.ServiceException? {
        return Failed(afterInfo.call);
      }
      var targetRole := graphClient.DirectoryRolesNamed(user.roleName, fault == Some(Call.ListRoles));
      AppendAssoc(log0, [Call.ListUsers, Call.CreateUser], [Call.ListRoles]);
      if targetRole.ServiceException? {
        return Failed(targetRole.call);
      }
      if |targetRole.value| == 0 {
        return CreatedNoRole(afterInfo.value.id);
      }
      var targetRoleId := targetRole.value[0].id;
      var added := graphClient.AddMemberReference(targetRoleId, afterInfo.value.id, fault == Some(Call.AddMember));
      AppendAssoc(log0, [Call.ListUsers, Call.CreateUser, Call.ListRoles], [Call.AddMember]);
      if added.ServiceException? {
        return Failed(added.call);
      }
      return CreatedWithRole(afterInfo.value.id, targetRoleId);
    }

    /** The import: enumerate the records of `lines` lazily and register each
        in turn, record k under fault FaultAt(faults, k). A data line with
        fewer than five pieces ends the run when it is reached. */
    method MainProcess(lines: seq<string>, faults: seq<Fault>) returns (outcomes: seq<Outcome>, status: RunStatus)
      modifies graphClient
      ensures var run := MainProcessRun(old(graphClient.State()), lines, faults);
              graphClient.State() == run.directory && outcomes == run.outcomes && status == run.status
      ensures graphClient.calls == old(graphClient.calls) + CallLog(outcomes)
    {
      ghost var start := graphClient.State();
      ghost var log0 := graphClient.calls;
      ghost var records: seq<UserData> := [];
      outcomes := [];
      var k := 0;
      while k + 1 < |lines|
        invariant k + 1 <= |lines| || k == 0
        invariant |lines| >= 1 ==> GetUsersToRegister(lines[..k + 1]) == Complete(records)
        invariant |records| == k
        invariant (graphClient.State(), outcomes) == Provision(start, records, faults)
        invariant graphClient.calls == log0 + CallLog(outcomes)
      {
        var parsed := ParseLine(lines[k + 1]);
        if parsed.None? {
          RunEndsAtShortLine(start, lines, faults, k + 1, records);
          return outcomes, EndedByShortLine(k + 1);
        }
        var user := parsed.value;
        ghost var prev, log := graphClient.State(), graphClient.calls;
        var outcome := RegisterUser(user, FaultAt(faults, k));
        EnumerationGrows(lines, k + 1, records, user);
        ProvisionStep(start, records, faults, user, prev, outcomes, graphClient.State(), outcome);
        CallLogStep(log0, outcomes, log, outcome, graphClient.calls);
        records := records + [user];
        outcomes := outcomes + [outcome];
        k := k + 1;
      }
      if |lines| >= 1 {
        assert lines[..k + 1] == lines;
      }
      status := RanToEnd;
    }

    /** Releasing the service only sets the flag; a second call does
        nothing. */
    method Dispose()
      modifies this`isDisposed
      ensures isDisposed
      ensures old(isDisposed) ==> unchanged(this)
    {
      if isDisposed {
        return;
      }
      isDisposed := true;
    }
  }
}
