/** What one run of the bulk import does, as functions on the directory
    state: for each record in order, list the first page of users and skip a
    principal name that is already there, otherwise create the account,
    look the role up by display name and, when a role is found, add the new
    account to the first one. A service exception ends the record, not the
    run, and nothing done before it is undone. */
module Provisioning {
  import opened Options
  import opened Models
  import opened UserCsv
  import opened Directory

  /** Which call of a record raises a service exception, if any. */
  type Fault = Option<Call>

  /** The fault injected for record `k`; records past the end of `faults`
      see none. */
  function FaultAt(faults: seq<Fault>, k: nat): Fault
  {
    if k < |faults| then faults[k] else None
  }

  /** What became of one record. */
  datatype Outcome =
    | Skipped
    | CreatedWithRole(userId: ObjectId, roleId: ObjectId)
    | CreatedNoRole(userId: ObjectId)
    | Failed(at: Call)

  /** The record's account exists after its step: every outcome past a
      successful create. */
  predicate AccountCreated(o: Outcome)
  {
    o.CreatedWithRole? || o.CreatedNoRole? || o == Failed(ListRoles) || o == Failed(AddMember)
  }

  /** The user object sent for a record: its four attributes, enabled, and a
      password that must be changed at the next sign-in. */
  function UserFor(u: UserData): (n: NewUser)
    ensures n.accountEnabled && n.forceChangePasswordNextSignIn
    ensures n.displayName == u.displayName && n.mailNickname == u.mailNickname
    ensures n.userPrincipalName == u.userPrincipalName && n.password == u.password
  {
    NewUser(u.displayName, u.mailNickname, u.userPrincipalName, u.password, true, true)
  }

  lemma FirstPageMember(d: DirState, upn: string)
    requires HasPrincipal(FirstPage(d), upn)
    ensures HasPrincipal(d.users, upn)
  {
    var page := FirstPage(d);
    var i :| 0 <= i < |page| && page[i].userPrincipalName == upn;
    assert d.users[i] == page[i];
  }

  /** One record's provisioning attempt under fault `f`. */
  function Step(d: DirState, u: UserData, f: Fault): (r: (DirState, Outcome))
    // the only change to the accounts is the one new account, with the next id
    ensures AccountCreated(r.1) ==>
              r.0.users == d.users + [AccountOf(UserFor(u), d.nextId)] && r.0.nextId == d.nextId + 1
    ensures !AccountCreated(r.1) ==> r.0 == d
    // one membership at most, and only for a reported role assignment
    ensures r.0.members == if r.1.CreatedWithRole? then d.members + {Membership(r.1.roleId, r.1.userId)}
                           else d.members
    ensures r.0.roles == d.roles && r.0.pageSize == d.pageSize
  {
    if f == Some(ListUsers) then (d, Failed(ListUsers))
    else if HasPrincipal(FirstPage(d), u.userPrincipalName) then (d, Skipped)
    else if f == Some(CreateUser) || !CreateAccepted(d, UserFor(u)) then (d, Failed(CreateUser))
    else
      var created := AfterCreate(d, UserFor(u));
      if f == Some(ListRoles) then (created, Failed(ListRoles))
      else
        var hits := RolesNamed(d.roles, u.roleName);
        if |hits| == 0 then (created, CreatedNoRole(d.nextId))
        else if f == Some(AddMember) then (created, Failed(AddMember))
        else (created.(members := created.members + {Membership(hits[0].id, d.nextId)}),
              CreatedWithRole(d.nextId, hits[0].id))
  }

  /** A record is skipped exactly when the listing works and its first page
      shows the principal name; a skip changes nothing. */
  lemma SkipIffListed(d: DirState, u: UserData, f: Fault)
    ensures Step(d, u, f).1 == Skipped <==>
            f != Some(ListUsers) && HasPrincipal(FirstPage(d), u.userPrincipalName)
    ensures Step(d, u, f).1 == Skipped ==> Step(d, u, f).0 == d
  {
  }

  /** The role assignment goes to the first role named like the record's
      role and names the new account's directory id; no role found means no
      assignment, and that is not a failure. */
  lemma RoleAssignment(d: DirState, u: UserData, f: Fault)
    ensures var r := Step(d, u, f);
            r.1.CreatedWithRole? ==>
              var hits := RolesNamed(d.roles, u.roleName);
              hits != [] && r.1.roleId == hits[0].id && r.1.userId == d.nextId
              && r.0.users[|d.users|].id == r.1.userId
    ensures Step(d, u, f).1.CreatedNoRole? ==>
              RolesNamed(d.roles, u.roleName) == [] && Step(d, u, f).1.userId == d.nextId
    // no role found: no membership call is made, so the record cannot fail there
    ensures Step(d, u, f).1 == Failed(AddMember) ==> RolesNamed(d.roles, u.roleName) != []
    ensures RolesNamed(d.roles, u.roleName) == [] && !HasPrincipal(d.users, u.userPrincipalName)
            && f != Some(ListUsers) && f != Some(CreateUser) && f != Some(ListRoles) ==>
              Step(d, u, f).1 == CreatedNoRole(d.nextId)
  {
    if HasPrincipal(FirstPage(d), u.userPrincipalName) {
      FirstPageMember(d, u.userPrincipalName);
    }
  }

  /** A record fails only at the call the fault names, or at the create when
      the directory already holds the principal name; and a service exception
      at any call the record reaches ends the record there. */
  lemma FailureCause(d: DirState, u: UserData, f: Fault)
    ensures Step(d, u, f).1.Failed? ==>
              f == Some(Step(d, u, f).1.at)
              || (Step(d, u, f).1.at == CreateUser && HasPrincipal(d.users, u.userPrincipalName))
    ensures f == Some(ListUsers) ==> Step(d, u, f) == (d, Failed(ListUsers))
    ensures f == Some(CreateUser) && !HasPrincipal(FirstPage(d), u.userPrincipalName) ==>
              Step(d, u, f) == (d, Failed(CreateUser))
    ensures f == Some(ListRoles) && !HasPrincipal(d.users, u.userPrincipalName) ==>
              Step(d, u, f).1 == Failed(ListRoles)
    ensures f == Some(AddMember) && !HasPrincipal(d.users, u.userPrincipalName)
            && RolesNamed(d.roles, u.roleName) != [] ==>
              Step(d, u, f).1 == Failed(AddMember)
  {
    if HasPrincipal(FirstPage(d), u.userPrincipalName) {
      FirstPageMember(d, u.userPrincipalName);
    }
  }

  /** The calls a record makes, given its outcome: always the listing, then
      in source order as far as the record got. */
  function CallsFor(o: Outcome): (calls: seq<Call>)
    ensures |calls| >= 1 && calls <= [ListUsers, CreateUser, ListRoles, AddMember]
    ensures CreateUser in calls <==> o != Skipped && o != Failed(ListUsers)
    ensures ListRoles in calls <==> AccountCreated(o)
    ensures AddMember in calls <==> o.CreatedWithRole? || o == Failed(AddMember)
  {
    match o
    case Skipped => [ListUsers]
    case Failed(ListUsers) => [ListUsers]
    case Failed(CreateUser) => [ListUsers, CreateUser]
    case Failed(ListRoles) => [ListUsers, CreateUser, ListRoles]
    case CreatedNoRole(_) => [ListUsers, CreateUser, ListRoles]
    case Failed(AddMember) => [ListUsers, CreateUser, ListRoles, AddMember]
    case CreatedWithRole(_, _) => [ListUsers, CreateUser, ListRoles, AddMember]
  }

  /** The calls of a run, record after record. */
  function CallLog(outs: seq<Outcome>): seq<Call>
  {
    if |outs| == 0 then [] else CallLog(outs[..|outs| - 1]) + CallsFor(outs[|outs| - 1])
  }

  /** How many of `calls` are `c`. */
  function Count(calls: seq<Call>, c: Call): (n: nat)
    ensures n <= |calls|
  {
    if |calls| == 0 then 0
    else (if calls[0] == c then 1 else 0) + Count(calls[1..], c)
  }

  /** Counting distributes over concatenation. */
  lemma {:induction false} CountAppend(a: seq<Call>, b: seq<Call>, c: Call)
    ensures Count(a + b, c) == Count(a, c) + Count(b, c)
    decreases |a|
  {
    if |a| > 0 {
      CountAppend(a[1..], b, c);
      assert (a + b)[1..] == a[1..] + b;
    } else {
      assert a + b == b;
    }
  }

  /** Per record every call is made at most once, and the listing exactly
      once. */
  lemma CallsPerRecord(o: Outcome, c: Call)
    ensures Count(CallsFor(o), c) <= 1
    ensures c == ListUsers ==> Count(CallsFor(o), c) == 1
  {
    // Count walks each call list tail by tail
    var all := [ListUsers, CreateUser, ListRoles, AddMember];
    assert all[1..] == [CreateUser, ListRoles, AddMember];
    assert all[1..][1..] == [ListRoles, AddMember];
    assert all[1..][1..][1..] == [AddMember];
    assert [ListUsers, CreateUser, ListRoles][1..] == [CreateUser, ListRoles];
    assert [ListUsers, CreateUser][1..] == [CreateUser];
  }

  /** A run lists the users exactly once per record and makes each other
      call, the create and the membership add among them, at most once per
      record. */
  lemma {:induction false} CallLogCounts(outs: seq<Outcome>, c: Call)
    ensures Count(CallLog(outs), c) <= |outs|
    ensures c == ListUsers ==> Count(CallLog(outs), c) == |outs|
    decreases |outs|
  {
    if |outs| > 0 {
      var last := |outs| - 1;
      CallLogCounts(outs[..last], c);
      CallsPerRecord(outs[last], c);
      CountAppend(CallLog(outs[..last]), CallsFor(outs[last]), c);
    }
  }

  /** Without a fault, a principal name the directory does not hold is
      created, and assigned to a role exactly when one has the record's role
      name. */
  lemma FaultFreeOutcome(d: DirState, u: UserData)
    requires !HasPrincipal(d.users, u.userPrincipalName)
    ensures Step(d, u, None).1 == if RolesNamed(d.roles, u.roleName) == [] then CreatedNoRole(d.nextId)
                                  else CreatedWithRole(d.nextId, RolesNamed(d.roles, u.roleName)[0].id)
  {
    if HasPrincipal(FirstPage(d), u.userPrincipalName) {
      FirstPageMember(d, u.userPrincipalName);
    }
  }

  /** Worked examples on a directory with one role, "Admins": a new
      principal name is created and assigned; with no such role it is created
      without one; a listed principal name is skipped. */
  lemma Examples()
    ensures var d := DirState([], [Role(7, "Admins")], {}, 100, 50);
            var alice := UserData("Alice", "alice", "alice@co.com", "P@ssw0rd!", "Admins");
            var created := d.(users := [AccountOf(UserFor(alice), 100)], nextId := 101);
            && Step(d, alice, None) == (created.(members := {Membership(7, 100)}), CreatedWithRole(100, 7))
            && Step(d, alice.(roleName := "Readers"), None)
               == (created.(users := [AccountOf(UserFor(alice.(roleName := "Readers")), 100)]), CreatedNoRole(100))
            && Step(created, alice, None) == (created, Skipped)
  {
    var d := DirState([], [Role(7, "Admins")], {}, 100, 50);
    var alice := UserData("Alice", "alice", "alice@co.com", "P@ssw0rd!", "Admins");
    var created := d.(users := [AccountOf(UserFor(alice), 100)], nextId := 101);
    assert RolesNamed(d.roles, "Admins") == [Role(7, "Admins")];
    assert RolesNamed(d.roles, "Readers") == [];
    assert !HasPrincipal(FirstPage(d), "alice@co.com");
    assert !HasPrincipal(d.users, "alice@co.com");
    assert AfterCreate(d, UserFor(alice)) == created;
    assert created.members + {Membership(7, 100)} == {Membership(7, 100)};
    assert FirstPage(created)[0].userPrincipalName == "alice@co.com";
  }

  /** The directory's invariant survives a step, and a created account's id
      is fresh. */
  lemma StepPreservesWellFormed(d: DirState, u: UserData, f: Fault)
    requires WellFormed(d)
    ensures WellFormed(Step(d, u, f).0)
    ensures AccountCreated(Step(d, u, f).1) ==>
              forall i :: 0 <= i < |d.users| ==> d.users[i].id != d.nextId
  {
  }

  /** On a well-formed directory the membership a step adds names the new
      account's fresh id, so it was not there before: the membership set
      grows by exactly one. */
  lemma StepGrantIsNew(d: DirState, u: UserData, f: Fault)
    requires WellFormed(d)
    ensures Step(d, u, f).1.CreatedWithRole? ==>
              Membership(Step(d, u, f).1.roleId, Step(d, u, f).1.userId) !in d.members
              && |Step(d, u, f).0.members| == |d.members| + 1
  {
  }

  /** The accounts created for `recs`, in record order, given their
      outcomes; ids are handed out consecutively from `start`. */
  function CreatedAccounts(start: ObjectId, recs: seq<UserData>, outs: seq<Outcome>): (acc: seq<Account>)
    requires |recs| == |outs|
    ensures |acc| <= |recs|
    ensures forall i :: 0 <= i < |acc| ==>
              acc[i].accountEnabled && acc[i].forceChangePasswordNextSignIn && acc[i].id == start + i
  {
    if |recs| == 0 then []
    else
      var last := |recs| - 1;
      var before := CreatedAccounts(start, recs[..last], outs[..last]);
      if AccountCreated(outs[last]) then before + [AccountOf(UserFor(recs[last]), start + |before|)]
      else before
  }

  /** The memberships that the outcomes report as added. */
  function Grants(outs: seq<Outcome>): (g: set<Membership>)
    ensures |g| <= |outs|
  {
    if |outs| == 0 then {}
    else
      var last := |outs| - 1;
      var o := outs[last];
      Grants(outs[..last]) + if o.CreatedWithRole? then {Membership(o.roleId, o.userId)} else {}
  }

  /** The records processed one after another, record k under fault
      FaultAt(faults, k); whatever one record's outcome, the next one is
      processed from the state it left. */
  function Provision(d: DirState, recs: seq<UserData>, faults: seq<Fault>): (r: (DirState, seq<Outcome>))
    ensures |r.1| == |recs|
    decreases |recs|
  {
    if |recs| == 0 then (d, [])
    else
      var last := |recs| - 1;
      var before := Provision(d, recs[..last], faults);
      var after := Step(before.0, recs[last], FaultAt(faults, last));
      (after.0, before.1 + [after.1])
  }

  /** One more record: the run so far, then that record's step. */
  lemma ProvisionStep(d: DirState, recs: seq<UserData>, faults: seq<Fault>, u: UserData,
                      prev: DirState, outs: seq<Outcome>, next: DirState, o: Outcome)
    requires (prev, outs) == Provision(d, recs, faults)
    requires (next, o) == Step(prev, u, FaultAt(faults, |recs|))
    ensures (next, outs + [o]) == Provision(d, recs + [u], faults)
  {
    assert (recs + [u])[..|recs|] == recs;
  }

  /** One more record: the log so far, then that record's calls. */
  lemma CallLogStep(log0: seq<Call>, outs: seq<Outcome>, log: seq<Call>, o: Outcome, next: seq<Call>)
    requires log == log0 + CallLog(outs)
    requires next == log + CallsFor(o)
    ensures next == log0 + CallLog(outs + [o])
  {
    assert (outs + [o])[..|outs|] == outs;
    AppendAssoc(log0, CallLog(outs), CallsFor(o));
  }

  /** What a run leaves of the accounts, read off its outcomes: the
      pre-existing accounts exactly as they were, followed by one new account
      per created record, in record order; the role catalog is untouched. */
  lemma {:induction false} ProvisionAccounts(d: DirState, recs: seq<UserData>, faults: seq<Fault>)
    ensures var r := Provision(d, recs, faults);
            && r.0.users == d.users + CreatedAccounts(d.nextId, recs, r.1)
            && r.0.nextId == d.nextId + |CreatedAccounts(d.nextId, recs, r.1)|
            && r.0.roles == d.roles && r.0.pageSize == d.pageSize
    decreases |recs|
  {
    if |recs| > 0 {
      var last := |recs| - 1;
      var before := Provision(d, recs[..last], faults);
      ProvisionAccounts(d, recs[..last], faults);
      var step := Step(before.0, recs[last], FaultAt(faults, last));
      assert Provision(d, recs, faults) == (step.0, before.1 + [step.1]);
      CreatedAccountsSnoc(d.nextId, recs, before.1, step.1);
      AppendAfter(d.users, CreatedAccounts(d.nextId, recs[..last], before.1), before.0.users,
                  CreatedAccounts(d.nextId, recs, before.1 + [step.1]), step.0.users,
                  AccountCreated(step.1), AccountOf(UserFor(recs[last]), before.0.nextId));
    }
  }

  /** Appending one more account, or none, after `base + acc`. */
  lemma AppendAfter(base: seq<Account>, acc: seq<Account>, prev: seq<Account>, all: seq<Account>,
                    users: seq<Account>, created: bool, a: Account)
    requires prev == base + acc
    requires created ==> all == acc + [a] && users == prev + [a]
    requires !created ==> all == acc && users == prev
    ensures users == base + all
  {
    if created {
      AppendAssoc(base, acc, [a]);
    }
  }

  /** Concatenation regrouped; stated once so that proofs can name it. */
  lemma AppendAssoc<T>(a: seq<T>, b: seq<T>, c: seq<T>)
    ensures a + b + c == a + (b + c)
  {
  }

  /** The created accounts of one more record. */
  lemma CreatedAccountsSnoc(start: ObjectId, recs: seq<UserData>, outs: seq<Outcome>, o: Outcome)
    requires |recs| == |outs| + 1
    ensures var acc := CreatedAccounts(start, recs[..|outs|], outs);
            CreatedAccounts(start, recs, outs + [o])
            == if AccountCreated(o) then acc + [AccountOf(UserFor(recs[|outs|]), start + |acc|)] else acc
  {
    assert (outs + [o])[..|outs|] == outs;
  }

  /** What a run leaves of the memberships: the old ones plus exactly those
      its outcomes report as added. */
  lemma {:induction false} ProvisionMemberships(d: DirState, recs: seq<UserData>, faults: seq<Fault>)
    ensures Provision(d, recs, faults).0.members == d.members + Grants(Provision(d, recs, faults).1)
    decreases |recs|
  {
    if |recs| > 0 {
      var last := |recs| - 1;
      var before := Provision(d, recs[..last], faults);
      ProvisionMemberships(d, recs[..last], faults);
      var step := Step(before.0, recs[last], FaultAt(faults, last));
      var outs := before.1 + [step.1];
      assert outs[..last] == before.1;
    }
  }

  /** Each run adds at most one account and one membership per record. */
  lemma AtMostOneCreateAndOneGrantPerRecord(d: DirState, recs: seq<UserData>, faults: seq<Fault>)
    ensures |Provision(d, recs, faults).0.users| <= |d.users| + |recs|
    ensures |Provision(d, recs, faults).0.members| <= |d.members| + |recs|
    ensures d.users <= Provision(d, recs, faults).0.users
  {
    ProvisionAccounts(d, recs, faults);
    ProvisionMemberships(d, recs, faults);
    var r := Provision(d, recs, faults);
    assert |d.members + Grants(r.1)| <= |d.members| + |Grants(r.1)|;
  }

  /** Processing a prefix of the records gives a prefix of the outcomes. */
  lemma {:induction false} ProvisionPrefix(d: DirState, recs: seq<UserData>, faults: seq<Fault>, k: nat)
    requires k <= |recs|
    ensures Provision(d, recs[..k], faults).1 == Provision(d, recs, faults).1[..k]
    ensures Provision(d, recs[..k], faults).0.users <= Provision(d, recs, faults).0.users
    decreases |recs|
  {
    if k < |recs| {
      var last := |recs| - 1;
      ProvisionPrefix(d, recs[..last], faults, k);
      assert recs[..last][..k] == recs[..k];
    } else {
      assert recs[..k] == recs;
    }
  }

  /** Record k is processed from the state that records 0..k-1 left,
      whatever their outcomes: a failure never stops the records after it. */
  lemma RecordProcessedAfterPrefix(d: DirState, recs: seq<UserData>, faults: seq<Fault>, k: nat)
    requires k < |recs|
    ensures Provision(d, recs, faults).1[k]
            == Step(Provision(d, recs[..k], faults).0, recs[k], FaultAt(faults, k)).1
  {
    ProvisionPrefix(d, recs, faults, k + 1);
    assert recs[..k + 1][..k] == recs[..k];
    assert recs[..k + 1][k] == recs[k];
  }

  /** The directory's invariant survives a whole run. */
  lemma {:induction false} ProvisionPreservesWellFormed(d: DirState, recs: seq<UserData>, faults: seq<Fault>)
    requires WellFormed(d)
    ensures WellFormed(Provision(d, recs, faults).0)
    decreases |recs|
  {
    if |recs| > 0 {
      var last := |recs| - 1;
      ProvisionPreservesWellFormed(d, recs[..last], faults);
      StepPreservesWellFormed(Provision(d, recs[..last], faults).0, recs[last], FaultAt(faults, last));
    }
  }

  /** A record whose account was created keeps it to the end of the run,
      even when its role assignment then failed: nothing is rolled back. */
  lemma CreatedAccountsPersist(d: DirState, recs: seq<UserData>, faults: seq<Fault>, k: nat)
    requires k < |recs|
    requires AccountCreated(Provision(d, recs, faults).1[k])
    ensures AccountOf(UserFor(recs[k]), Provision(d, recs[..k], faults).0.nextId)
            in Provision(d, recs, faults).0.users
  {
    RecordProcessedAfterPrefix(d, recs, faults, k);
    ProvisionPrefix(d, recs, faults, k + 1);
    var dk := Provision(d, recs[..k], faults).0;
    assert recs[..k + 1][..k] == recs[..k];
    assert Provision(d, recs[..k + 1], faults).0 == Step(dk, recs[k], FaultAt(faults, k)).0;
    var a := AccountOf(UserFor(recs[k]), dk.nextId);
    assert Step(dk, recs[k], FaultAt(faults, k)).0.users[|dk.users|] == a;
  }

  /** A record that was skipped or whose account was created (even if its
      role lookup or assignment then failed) leaves its principal name in the
      directory. */
  lemma PrincipalPresentAfterSkipOrCreate(d: DirState, recs: seq<UserData>, faults: seq<Fault>, k: nat)
    requires k < |recs|
    requires Provision(d, recs, faults).1[k] == Skipped || AccountCreated(Provision(d, recs, faults).1[k])
    ensures HasPrincipal(Provision(d, recs, faults).0.users, recs[k].userPrincipalName)
  {
    RecordProcessedAfterPrefix(d, recs, faults, k);
    ProvisionPrefix(d, recs, faults, k + 1);
    var dk := Provision(d, recs[..k], faults).0;
    var step := Step(dk, recs[k], FaultAt(faults, k));
    assert recs[..k + 1][..k] == recs[..k];
    assert Provision(d, recs[..k + 1], faults).0 == step.0;
    var final := Provision(d, recs, faults).0.users;
    if step.1 == Skipped {
      FirstPageMember(dk, recs[k].userPrincipalName);
      var i :| 0 <= i < |dk.users| && dk.users[i].userPrincipalName == recs[k].userPrincipalName;
      assert final[i] == dk.users[i];
    } else {
      assert final[|dk.users|] == step.0.users[|dk.users|];
    }
  }

  /** When every principal name is on the first page and no listing fails,
      every record is skipped and the directory is left as it was. */
  lemma {:induction false} AllListedAllSkipped(d: DirState, recs: seq<UserData>, faults: seq<Fault>)
    requires forall k :: 0 <= k < |recs| ==> HasPrincipal(FirstPage(d), recs[k].userPrincipalName)
    requires forall k :: 0 <= k < |recs| ==> FaultAt(faults, k) != Some(ListUsers)
    ensures Provision(d, recs, faults).0 == d
    ensures forall k :: 0 <= k < |recs| ==> Provision(d, recs, faults).1[k] == Skipped
    decreases |recs|
  {
    if |recs| > 0 {
      var last := |recs| - 1;
      AllListedAllSkipped(d, recs[..last], faults);
    }
  }

  /** Replaying the same records against the directory a first run left,
      where every record was skipped or got its account (its role lookup or
      assignment may have failed), with the whole listing on the first page
      and no failing listing: every record is skipped and nothing changes, so
      a role assignment missed by the first run is not retried. */
  lemma ReplaySkipsEverything(d: DirState, recs: seq<UserData>, first: seq<Fault>, second: seq<Fault>)
    requires forall k :: 0 <= k < |recs| ==>
               Provision(d, recs, first).1[k] == Skipped || AccountCreated(Provision(d, recs, first).1[k])
    requires |Provision(d, recs, first).0.users| <= d.pageSize
    requires forall k :: 0 <= k < |recs| ==> FaultAt(second, k) != Some(ListUsers)
    ensures var after := Provision(d, recs, first).0;
            Provision(after, recs, second).0 == after
            && forall k :: 0 <= k < |recs| ==> Provision(after, recs, second).1[k] == Skipped
  {
    var after := Provision(d, recs, first).0;
    ProvisionAccounts(d, recs, first);
    assert FirstPage(after) == after.users;
    forall k | 0 <= k < |recs| ensures HasPrincipal(FirstPage(after), recs[k].userPrincipalName) {
      PrincipalPresentAfterSkipOrCreate(d, recs, first, k);
    }
    AllListedAllSkipped(after, recs, second);
  }

  /** When every record's principal name is already in the directory, on the
      first page or not, nothing is created or granted: each record is
      skipped, or fails at the listing, or has its create refused. */
  lemma {:induction false} PresentNamesChangeNothing(d: DirState, recs: seq<UserData>, faults: seq<Fault>)
    requires forall k :: 0 <= k < |recs| ==> HasPrincipal(d.users, recs[k].userPrincipalName)
    ensures Provision(d, recs, faults).0 == d
    ensures forall k :: 0 <= k < |recs| ==>
              Provision(d, recs, faults).1[k] in {Skipped, Failed(ListUsers), Failed(CreateUser)}
    decreases |recs|
  {
    if |recs| > 0 {
      var last := |recs| - 1;
      var before := Provision(d, recs[..last], faults);
      PresentNamesChangeNothing(d, recs[..last], faults);
      var step := Step(d, recs[last], FaultAt(faults, last));
      assert Provision(d, recs, faults) == (step.0, before.1 + [step.1]);
      assert step.1 in {Skipped, Failed(ListUsers), Failed(CreateUser)};
    }
  }

  /** Replaying the records against the directory a first run left, where
      every record was skipped or got its account, creates no account and
      adds no membership, however large the directory and whatever the
      faults: a name beyond the first page is not skipped, but its create is
      refused. */
  lemma ReplayCreatesNothing(d: DirState, recs: seq<UserData>, first: seq<Fault>, second: seq<Fault>)
    requires forall k :: 0 <= k < |recs| ==>
               Provision(d, recs, first).1[k] == Skipped || AccountCreated(Provision(d, recs, first).1[k])
    ensures var after := Provision(d, recs, first).0;
            Provision(after, recs, second).0 == after
            && forall k :: 0 <= k < |recs| ==>
                 Provision(after, recs, second).1[k] in {Skipped, Failed(ListUsers), Failed(CreateUser)}
  {
    var after := Provision(d, recs, first).0;
    forall k | 0 <= k < |recs| ensures HasPrincipal(after.users, recs[k].userPrincipalName) {
      PrincipalPresentAfterSkipOrCreate(d, recs, first, k);
    }
    PresentNamesChangeNothing(after, recs, second);
  }

  /** How a run ended: after the last record, or at a data line with fewer
      than five pieces (the exception escapes the loop). */
  datatype RunStatus = RanToEnd | EndedByShortLine(line: nat)

  datatype RunResult = RunResult(directory: DirState, outcomes: seq<Outcome>, status: RunStatus)

  /** A whole run over the lines of the input file: the records enumerated
      before the first short line are provisioned, then the run ends. */
  function MainProcessRun(d: DirState, lines: seq<string>, faults: seq<Fault>): (run: RunResult)
    ensures run.status.RanToEnd? <==> GetUsersToRegister(lines).Complete?
    ensures |run.outcomes| == |GetUsersToRegister(lines).records|
  {
    var e := GetUsersToRegister(lines);
    var p := Provision(d, e.records, faults);
    RunResult(p.0, p.1, if e.Complete? then RanToEnd else EndedByShortLine(e.line))
  }

  /** A run whose enumeration reaches a short data line at `j` ends there,
      after the records before it. */
  lemma RunEndsAtShortLine(d: DirState, lines: seq<string>, faults: seq<Fault>, j: nat, recs: seq<UserData>)
    requires 1 <= j < |lines|
    requires GetUsersToRegister(lines[..j]) == Complete(recs)
    requires ParseLine(lines[j]).None?
    ensures var p := Provision(d, recs, faults);
            MainProcessRun(d, lines, faults) == RunResult(p.0, p.1, EndedByShortLine(j))
  {
    assert lines[..j + 1][..j] == lines[..j];
    AbortedEnumerationIsFinal(lines, j + 1);
  }

  /** A file whose data lines all have five pieces gets exactly one attempt
      per data line, however many fail; otherwise the run ends at the first
      short line, after one attempt for each line before it. */
  lemma EveryRecordAttempted(d: DirState, lines: seq<string>, faults: seq<Fault>)
    ensures (forall j :: 1 <= j < |lines| ==> Occurrences(lines[j], Comma) >= 4) ==>
              MainProcessRun(d, lines, faults).status == RanToEnd
              && |MainProcessRun(d, lines, faults).outcomes| == if |lines| == 0 then 0 else |lines| - 1
    ensures MainProcessRun(d, lines, faults).status.EndedByShortLine? ==>
              var j := MainProcessRun(d, lines, faults).status.line;
              1 <= j < |lines| && Occurrences(lines[j], Comma) < 4
              && (forall i :: 1 <= i < j ==> Occurrences(lines[i], Comma) >= 4)
              && |MainProcessRun(d, lines, faults).outcomes| == j - 1
  {
    AbortsAtFirstShortLine(lines);
  }
}
