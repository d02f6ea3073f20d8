/**
 * Team membership (components/team-manager.tsx): creating a team, joining one
 * by invite code, and the member counts shown in the team list.
 *
 * The backend's `teams` and `team_members` tables are held as sequences of
 * rows in insertion order. Each insert receives whether the backend accepted
 * it; the table's id generator is a counter, and the uniqueness of invite
 * codes is the table's constraint (an insert whose code is taken is refused).
 * `.single()` returns a row only when exactly one row matches, which is how
 * the two look-ups of `joinTeam` are modelled.
 */
module TeamManager {
  import opened Tasks

  // ---------------------------------------------------------------------------
  // String.prototype.trim
  // ---------------------------------------------------------------------------

  /** The white space and line terminators `trim` removes (the Unicode space separators beyond U+00A0 are not listed). */
  predicate IsWhitespace(c: char) {
    c in {' ', '\t', '\n', '\r', '\U{000B}', '\U{000C}', '\U{00A0}', '\U{2028}', '\U{2029}', '\U{FEFF}'}
  }

  predicate IsBlank(s: string) {
    forall i :: 0 <= i < |s| ==> IsWhitespace(s[i])
  }

  /** `s` without its leading white space. */
  function TrimStart(s: string): (r: string)
    ensures |r| <= |s|
  {
    if s != [] && IsWhitespace(s[0]) then TrimStart(s[1..]) else s
  }

  /** `s` without its trailing white space. */
  function TrimEnd(s: string): (r: string)
    ensures |r| <= |s|
  {
    if s != [] && IsWhitespace(s[|s| - 1]) then TrimEnd(s[..|s| - 1]) else s
  }

  /** `s.trim()`. */
  function Trim(s: string): (r: string)
    ensures |r| <= |s|
  {
    TrimEnd(TrimStart(s))
  }

  /** `TrimStart` drops exactly the white space in front: a suffix of `s` that starts with other text. */
  lemma {:induction false} TrimStartSpec(s: string)
    ensures TrimStart(s) == s[|s| - |TrimStart(s)|..]
    ensures TrimStart(s) == [] || !IsWhitespace(TrimStart(s)[0])
    ensures forall i :: 0 <= i < |s| - |TrimStart(s)| ==> IsWhitespace(s[i])
  {
    if s != [] && IsWhitespace(s[0]) {
      TrimStartSpec(s[1..]);
      forall i | 0 <= i < |s| - |TrimStart(s)| ensures IsWhitespace(s[i]) {
        if i > 0 {
          assert s[i] == s[1..][i - 1];
        }
      }
    }
  }

  /** `TrimEnd` drops exactly the white space at the back: a prefix of `s` that ends with other text. */
  lemma {:induction false} TrimEndSpec(s: string)
    ensures TrimEnd(s) == s[..|TrimEnd(s)|]
    ensures TrimEnd(s) == [] || !IsWhitespace(TrimEnd(s)[|TrimEnd(s)| - 1])
    ensures forall i :: |TrimEnd(s)| <= i < |s| ==> IsWhitespace(s[i])
  {
    if s != [] && IsWhitespace(s[|s| - 1]) {
      var init := s[..|s| - 1];
      TrimEndSpec(init);
      forall i | |TrimEnd(s)| <= i < |s| ensures IsWhitespace(s[i]) {
        if i < |s| - 1 {
          assert s[i] == init[i];
        }
      }
    }
  }

  /** `r` is the slice of `s` at offset `k`, with only white space before and after it. */
  ghost predicate PaddedAt(s: string, r: string, k: int) {
    0 <= k <= |s| - |r| && r == s[k..k + |r|] && IsBlank(s[..k]) && IsBlank(s[k + |r|..])
  }

  /**
   * The trimmed string neither starts nor ends with white space, and `s` is
   * that string with only white space around it.
   */
  lemma TrimSpec(s: string)
    ensures var r := Trim(s);
      && (r == [] || (!IsWhitespace(r[0]) && !IsWhitespace(r[|r| - 1])))
      && exists k :: PaddedAt(s, r, k)
  {
    var front := TrimStart(s);
    TrimStartSpec(s);
    TrimEndSpec(front);
    var r := Trim(s);
    var k := |s| - |front|;
    assert r == s[k..k + |r|];
    var tail := s[k + |r|..];
    forall i | 0 <= i < |tail| ensures IsWhitespace(tail[i]) {
      assert tail[i] == front[|r| + i];
    }
    if r != [] {
      assert front[0] == r[0];
    }
    assert PaddedAt(s, r, k);
  }

  /** The trimmed string is empty exactly when `s` is blank. */
  lemma TrimBlank(s: string)
    ensures Trim(s) == [] <==> IsBlank(s)
  {
    TrimSpec(s);
    var k :| PaddedAt(s, Trim(s), k);
    if Trim(s) == [] {
      assert s == s[..k] + s[k..];
      forall i | 0 <= i < |s| ensures IsWhitespace(s[i]) {
        if i < k { assert s[i] == s[..k][i]; } else { assert s[i] == s[k..][i - k]; }
      }
    } else {
      assert s[k] == Trim(s)[0];
    }
  }

  /** A string that neither starts nor ends with white space is its own trim. */
  lemma TrimOfTrimmed(s: string)
    requires s == [] || (!IsWhitespace(s[0]) && !IsWhitespace(s[|s| - 1]))
    ensures Trim(s) == s
  {
  }

  /** Trimming twice is trimming once. */
  lemma TrimIdempotent(s: string)
    ensures Trim(Trim(s)) == Trim(s)
  {
    TrimSpec(s);
    TrimOfTrimmed(Trim(s));
  }

  // ---------------------------------------------------------------------------
  // Tables.
  // ---------------------------------------------------------------------------

  type TeamId = nat

  datatype Team = Team(id: TeamId, name: string, description: string, ownerId: string, inviteCode: string)

  datatype Role = Owner | Admin | Member

  /** A row of `team_members`. */
  datatype Membership = Membership(teamId: TeamId, userId: string, role: Role)

  /** Why an action stopped; the source shows it in an error toast. */
  datatype Failure = TeamInsertFailed | MemberInsertFailed | InvalidInviteCode | AlreadyMember

  /** `Ignored` is the silent return on a blank form field. */
  datatype Outcome = Ignored | Done | Failed(reason: Failure) {
    /** Whether `createTeam` got as far as inserting the team row. */
    predicate TeamRowInserted() {
      this == Done || this == Failed(MemberInsertFailed)
    }
  }

  predicate IsMember(members: seq<Membership>, teamId: TeamId, userId: string) {
    exists i :: 0 <= i < |members| && members[i].teamId == teamId && members[i].userId == userId
  }

  /** Every `(team, user)` pair occurs in at most one membership row. */
  ghost predicate NoDuplicateMembership(members: seq<Membership>) {
    forall i, j :: 0 <= i < j < |members| ==>
      members[i].teamId != members[j].teamId || members[i].userId != members[j].userId
  }

  /** `select * from team_members where team_id = teamId and user_id = userId`. */
  function MembershipRows(members: seq<Membership>, teamId: TeamId, userId: string): (r: seq<Membership>)
    ensures |r| > 0 <==> IsMember(members, teamId, userId)
  {
    FilterEmpty(members, (m: Membership) => m.teamId == teamId && m.userId == userId);
    Filter(members, (m: Membership) => m.teamId == teamId && m.userId == userId)
  }

  /** `select * from teams where invite_code = code`. */
  function TeamsWithCode(teams: seq<Team>, code: string): seq<Team> {
    Filter(teams, (t: Team) => t.inviteCode == code)
  }

  /** `.single()` on the invite-code look-up: the team, when exactly one has the code. */
  function TeamByCode(teams: seq<Team>, code: string): (r: Option<Team>)
    ensures r.Some? ==> r.value in teams && r.value.inviteCode == code
  {
    var found := TeamsWithCode(teams, code);
    if |found| == 1 then Some(found[0]) else None
  }

  /** `count` of `team_members` rows for one team. */
  function MemberCount(members: seq<Membership>, teamId: TeamId): (n: nat)
    ensures n <= |members|
    ensures n == |PassingIndices(members, (m: Membership) => m.teamId == teamId)|
  {
    FilterCount(members, (m: Membership) => m.teamId == teamId);
    |Filter(members, (m: Membership) => m.teamId == teamId)|
  }

  /** Without duplicate pairs, the membership look-up finds at most one row. */
  lemma {:induction false} AtMostOneMembershipRow(members: seq<Membership>, teamId: TeamId, userId: string)
    requires NoDuplicateMembership(members)
    ensures |MembershipRows(members, teamId, userId)| <= 1
  {
    var p := (m: Membership) => m.teamId == teamId && m.userId == userId;
    if members != [] {
      var rest := members[1..];
      if p(members[0]) {
        forall i | 0 <= i < |rest| ensures !p(rest[i]) {
          assert rest[i] == members[i + 1];
        }
        FilterEmpty(rest, p);
      } else {
        AtMostOneMembershipRow(rest, teamId, userId);
      }
    }
  }

  /** A member row for a team is counted in that team's member count. */
  lemma MemberCounted(members: seq<Membership>, teamId: TeamId, userId: string)
    requires IsMember(members, teamId, userId)
    ensures MemberCount(members, teamId) >= 1
  {
    var i :| 0 <= i < |members| && members[i].teamId == teamId && members[i].userId == userId;
    assert members[i] in Filter(members, (m: Membership) => m.teamId == teamId);
  }

  /** Appending a row for a team adds one to its count and leaves every other team's count alone. */
  lemma MemberCountAppend(members: seq<Membership>, row: Membership, teamId: TeamId)
    ensures MemberCount(members + [row], teamId)
      == MemberCount(members, teamId) + (if row.teamId == teamId then 1 else 0)
  {
    FilterConcat(members, [row], (m: Membership) => m.teamId == teamId);
  }

  // ---------------------------------------------------------------------------
  // Member-count rollup of `fetchTeams`.
  // ---------------------------------------------------------------------------

  /** A team of the list with its `member_count`. */
  datatype TeamSummary = TeamSummary(team: Team, memberCount: nat)

  /**
   * `fetchTeams`: the teams the user belongs to, each with its number of
   * member rows. `counted(id)` says whether the count query for team `id`
   * answered; when it did not, `count || 0` shows 0.
   */
  function TeamsOf(teams: seq<Team>, members: seq<Membership>, userId: string, counted: TeamId -> bool): (r: seq<TeamSummary>)
    ensures forall i :: 0 <= i < |r| ==>
      && r[i].team in teams
      && IsMember(members, r[i].team.id, userId)
      && r[i].memberCount == (if counted(r[i].team.id) then MemberCount(members, r[i].team.id) else 0)
      && (counted(r[i].team.id) ==> r[i].memberCount >= 1)
    ensures forall j :: 0 <= j < |teams| && IsMember(members, teams[j].id, userId) ==>
      exists i :: 0 <= i < |r| && r[i].team == teams[j]
    ensures |r| == |PassingIndices(teams, (t: Team) => IsMember(members, t.id, userId))|
  {
    FilterCount(teams, (t: Team) => IsMember(members, t.id, userId));
    var mine := Filter(teams, (t: Team) => IsMember(members, t.id, userId));
    var r := seq(|mine|, i requires 0 <= i < |mine| =>
      TeamSummary(mine[i], if counted(mine[i].id) then MemberCount(members, mine[i].id) else 0));
    forall i | 0 <= i < |r|
      ensures r[i].team in teams && IsMember(members, r[i].team.id, userId)
      ensures counted(r[i].team.id) ==> r[i].memberCount >= 1
    {
      assert mine[i] in mine;
      MemberCounted(members, mine[i].id, userId);
    }
    forall j | 0 <= j < |teams| && IsMember(members, teams[j].id, userId)
      ensures exists i :: 0 <= i < |r| && r[i].team == teams[j]
    {
      assert teams[j] in mine;
      var i :| 0 <= i < |mine| && mine[i] == teams[j];
      assert r[i].team == teams[j];
    }
    r
  }

  // ---------------------------------------------------------------------------
  // Table invariants and the decisions of the two forms.
  // ---------------------------------------------------------------------------

  /**
   * What the tables keep: issued team ids below the generator, unique team
   * ids and invite codes, member rows only for issued ids, no duplicate pair.
   */
  ghost predicate TablesValid(teams: seq<Team>, members: seq<Membership>, nextId: TeamId) {
    && (forall i :: 0 <= i < |teams| ==> teams[i].id < nextId)
    && (forall i, j :: 0 <= i < j < |teams| ==> teams[i].id != teams[j].id)
    && (forall i, j :: 0 <= i < j < |teams| ==> teams[i].inviteCode != teams[j].inviteCode)
    && (forall i :: 0 <= i < |members| ==> members[i].teamId < nextId)
    && NoDuplicateMembership(members)
  }

  /** A team with a fresh id and an unused code keeps the tables valid. */
  lemma TeamInsertKeepsValid(teams: seq<Team>, members: seq<Membership>, nextId: TeamId, t: Team)
    requires TablesValid(teams, members, nextId)
    requires t.id == nextId && TeamsWithCode(teams, t.inviteCode) == []
    ensures TablesValid(teams + [t], members, nextId + 1)
  {
    forall i | 0 <= i < |teams| ensures teams[i].inviteCode != t.inviteCode {
      assert teams[i] !in TeamsWithCode(teams, t.inviteCode);
    }
  }

  /** A member row for an issued team, for a user not yet in it, keeps the tables valid. */
  lemma MemberInsertKeepsValid(teams: seq<Team>, members: seq<Membership>, nextId: TeamId, row: Membership)
    requires TablesValid(teams, members, nextId)
    requires row.teamId < nextId && !IsMember(members, row.teamId, row.userId)
    ensures TablesValid(teams, members + [row], nextId)
  {
  }

  /** No membership row refers to the id the generator hands out next. */
  lemma FreshTeamHasNoMembers(teams: seq<Team>, members: seq<Membership>, nextId: TeamId, userId: string)
    requires TablesValid(teams, members, nextId)
    ensures !IsMember(members, nextId, userId)
  {
  }

  /** Under the invariant, the existing-member check (`.single()` finds one row) is exact membership. */
  lemma ExistingRowIsMembership(teams: seq<Team>, members: seq<Membership>, nextId: TeamId, teamId: TeamId, userId: string)
    requires TablesValid(teams, members, nextId)
    ensures |MembershipRows(members, teamId, userId)| == 1 <==> IsMember(members, teamId, userId)
  {
    AtMostOneMembershipRow(members, teamId, userId);
  }

  /** Under the invariant, a code used by some team finds that team. */
  lemma {:induction false} CodeFindsTeam(teams: seq<Team>, members: seq<Membership>, nextId: TeamId, j: nat)
    requires TablesValid(teams, members, nextId) && j < |teams|
    ensures TeamByCode(teams, teams[j].inviteCode) == Some(teams[j])
  {
    var code := teams[j].inviteCode;
    var p := (t: Team) => t.inviteCode == code;
    assert teams == teams[..j] + [teams[j]] + teams[j + 1..];
    FilterConcat(teams[..j] + [teams[j]], teams[j + 1..], p);
    FilterConcat(teams[..j], [teams[j]], p);
    FilterEmpty(teams[..j], p);
    FilterEmpty(teams[j + 1..], p);
  }

  /** The result `createTeam` reaches, from the form and the backend's answers. */
  function CreateOutcome(teams: seq<Team>, name: string, code: string, teamAccepted: bool, memberAccepted: bool): Outcome {
    if IsBlank(name) then Ignored else InsertOutcome(teams, code, teamAccepted, memberAccepted)
  }

  /** The result of the two inserts of `createTeam`. */
  function InsertOutcome(teams: seq<Team>, code: string, teamAccepted: bool, memberAccepted: bool): Outcome {
    if !teamAccepted || TeamsWithCode(teams, code) != [] then Failed(TeamInsertFailed)
    else if !memberAccepted then Failed(MemberInsertFailed)
    else Done
  }

  /**
   * The result `joinTeam` reaches, from the form and the backend's answers:
   * whether the invite-code query answered, whether the existing-member query
   * answered, and whether the member insert was accepted.
   */
  function JoinOutcome(teams: seq<Team>, members: seq<Membership>, userId: string, code: string,
                       codeQueryOk: bool, checkQueryOk: bool, accepted: bool): Outcome {
    if IsBlank(code) then Ignored
    else LookupOutcome(teams, members, userId, Trim(code), codeQueryOk, checkQueryOk, accepted)
  }

  /**
   * The result of the look-ups and the insert of `joinTeam`, for a trimmed
   * code. A failed invite-code query reads as an invalid code. A failed
   * existing-member query leaves no row to see, so the insert is attempted,
   * and the unique `(team, user)` key refuses it when the pair is present.
   */
  function LookupOutcome(teams: seq<Team>, members: seq<Membership>, userId: string, code: string,
                         codeQueryOk: bool, checkQueryOk: bool, accepted: bool): Outcome {
    if !codeQueryOk then Failed(InvalidInviteCode)
    else match TeamByCode(teams, code)
    case None => Failed(InvalidInviteCode)
    case Some(t) =>
      if checkQueryOk && IsMember(members, t.id, userId) then Failed(AlreadyMember)
      else if !accepted || IsMember(members, t.id, userId) then Failed(MemberInsertFailed)
      else Done
  }

  /** A code that no team carries fails as an invalid invite code. */
  lemma UnknownCodeFails(teams: seq<Team>, members: seq<Membership>, userId: string, code: string,
                         codeQueryOk: bool, checkQueryOk: bool, accepted: bool)
    requires !IsBlank(code)
    requires forall i :: 0 <= i < |teams| ==> teams[i].inviteCode != Trim(code)
    ensures JoinOutcome(teams, members, userId, code, codeQueryOk, checkQueryOk, accepted) == Failed(InvalidInviteCode)
  {
    FilterEmpty(teams, (t: Team) => t.inviteCode == Trim(code));
  }

  /**
   * A team whose owner row was refused stays in the `teams` table but is in
   * no one's team list, its owner's included: nothing removes it.
   */
  lemma OrphanedTeamIsListedNowhere(teams: seq<Team>, members: seq<Membership>, nextId: TeamId, t: Team, userId: string)
    requires TablesValid(teams, members, nextId) && t.id == nextId
    ensures forall counted: TeamId -> bool, i ::
      0 <= i < |TeamsOf(teams + [t], members, userId, counted)| ==> TeamsOf(teams + [t], members, userId, counted)[i].team != t
  {
    FreshTeamHasNoMembers(teams, members, nextId, userId);
  }

  /**
   * A successful join adds a row for a pair that was absent, so the tables
   * stay free of duplicates, whatever the existing-member query answered.
   */
  lemma JoinNeverDuplicates(teams: seq<Team>, members: seq<Membership>, nextId: TeamId, userId: string, code: string,
                            codeQueryOk: bool, checkQueryOk: bool)
    requires TablesValid(teams, members, nextId)
    requires JoinOutcome(teams, members, userId, code, codeQueryOk, checkQueryOk, true) == Done
    ensures var t := TeamByCode(teams, Trim(code)).value;
      !IsMember(members, t.id, userId) && TablesValid(teams, members + [Membership(t.id, userId, Member)], nextId)
  {
    var t := TeamByCode(teams, Trim(code)).value;
    MemberInsertKeepsValid(teams, members, nextId, Membership(t.id, userId, Member));
  }

  /**
   * Joining with the code of a team one already belongs to never succeeds:
   * the existing-member check stops it when its query answers, and the
   * unique `(team, user)` key refuses the insert when it does not.
   */
  lemma RejoinFails(teams: seq<Team>, members: seq<Membership>, nextId: TeamId, userId: string, code: string, j: nat,
                    codeQueryOk: bool, checkQueryOk: bool, accepted: bool)
    requires TablesValid(teams, members, nextId) && j < |teams|
    requires IsMember(members, teams[j].id, userId)
    requires !IsBlank(code) && Trim(code) == teams[j].inviteCode
    ensures JoinOutcome(teams, members, userId, code, codeQueryOk, checkQueryOk, accepted)
      == if !codeQueryOk then Failed(InvalidInviteCode)
         else if checkQueryOk then Failed(AlreadyMember)
         else Failed(MemberInsertFailed)
  {
    CodeFindsTeam(teams, members, nextId, j);
  }

  // ---------------------------------------------------------------------------
  // The component.
  // ---------------------------------------------------------------------------

  class Manager {
    /** The signed-in user. */
    const user: string
    /** The `teams` table. */
    var teams: seq<Team>
    /** The `team_members` table. */
    var members: seq<Membership>
    /** The next id the `teams` table hands out. */
    var nextTeamId: TeamId
    /** Disables the forms while a request is in flight. */
    var loading: bool
    var newTeamName: string
    var newTeamDescription: string
    var inviteCode: string

    ghost predicate Valid()
      reads this`teams, this`members, this`nextTeamId
    {
      TablesValid(teams, members, nextTeamId)
    }

    /** The component mounting over the current tables: empty forms, not loading. */
    constructor(user: string, teams: seq<Team>, members: seq<Membership>, nextTeamId: TeamId)
      requires TablesValid(teams, members, nextTeamId)
      ensures Valid()
      ensures this.user == user && this.teams == teams && this.members == members && this.nextTeamId == nextTeamId
      ensures !loading && newTeamName == [] && newTeamDescription == [] && inviteCode == []
    {
      this.user := user;
      this.teams := teams;
      this.members := members;
      this.nextTeamId := nextTeamId;
      loading := false;
      newTeamName := [];
      newTeamDescription := [];
      inviteCode := [];
    }

    /** Typing into the create-team form. */
    method EditTeamForm(name: string, description: string)
      modifies this`newTeamName, this`newTeamDescription
      ensures newTeamName == name && newTeamDescription == description
    {
      newTeamName := name;
      newTeamDescription := description;
    }

    /** Typing into the join-team form. */
    method EditInviteCode(code: string)
      modifies this`inviteCode
      ensures inviteCode == code
    {
      inviteCode := code;
    }

    /**
     * The `teams` insert: refused by the backend or by the unique invite
     * code; otherwise the row gets the next id. It runs only while `loading`
     * is set.
     */
    method InsertTeam(name: string, description: string, code: string, accepted: bool) returns (created: Option<Team>)
      requires loading && Valid()
      modifies this`teams, this`nextTeamId
      ensures Valid()
      ensures created.Some? == (accepted && TeamsWithCode(old(teams), code) == [])
      ensures created.Some? ==> created.value == Team(old(nextTeamId), name, description, user, code)
      ensures teams == (if created.Some? then old(teams) + [created.value] else old(teams))
      ensures nextTeamId == (if created.Some? then old(nextTeamId) + 1 else old(nextTeamId))
    {
      if !accepted || TeamsWithCode(teams, code) != [] {
        return None;
      }
      var t := Team(nextTeamId, name, description, user, code);
      TeamInsertKeepsValid(teams, members, nextTeamId, t);
      teams := teams + [t];
      nextTeamId := nextTeamId + 1;
      return Some(t);
    }

    /**
     * A `team_members` insert: refused by the backend or by the unique
     * `(team, user)` key; it runs only while `loading` is set.
     */
    method InsertMember(row: Membership, accepted: bool) returns (ok: bool)
      requires loading && Valid()
      requires row.teamId < nextTeamId
      modifies this`members
      ensures Valid()
      ensures ok == (accepted && !IsMember(old(members), row.teamId, row.userId))
      ensures members == (if ok then old(members) + [row] else old(members))
    {
      ok := accepted && !IsMember(members, row.teamId, row.userId);
      if ok {
        MemberInsertKeepsValid(teams, members, nextTeamId, row);
        members := members + [row];
      }
    }

    /** The team row, then the owner's membership row; a failed member insert leaves the team row in place. */
    method InsertTeamWithOwner(name: string, description: string, code: string, teamAccepted: bool, memberAccepted: bool)
      returns (outcome: Outcome)
      requires loading && Valid()
      modifies this`teams, this`members, this`nextTeamId
      ensures Valid()
      ensures outcome == InsertOutcome(old(teams), code, teamAccepted, memberAccepted)
      ensures teams == (if outcome.TeamRowInserted()
        then old(teams) + [Team(old(nextTeamId), name, description, user, code)]
        else old(teams))
      ensures nextTeamId == (if outcome.TeamRowInserted() then old(nextTeamId) + 1 else old(nextTeamId))
      ensures members == (if outcome == Done then old(members) + [Membership(old(nextTeamId), user, Owner)] else old(members))
    {
      FreshTeamHasNoMembers(teams, members, nextTeamId, user);
      var created := InsertTeam(name, description, code, teamAccepted);
      if created.None? {
        return Failed(TeamInsertFailed);
      }
      var memberOk := InsertMember(Membership(created.value.id, user, Owner), memberAccepted);
      if !memberOk {
        return Failed(MemberInsertFailed);
      }
      return Done;
    }

    /**
     * What `createTeam` does once the name is known not to be blank: sets
     * `loading`, inserts the team row and then the owner's membership row
     * (a failed member insert leaves the team row in place), clears the form
     * only when both succeed, and clears `loading`.
     */
    method SubmitTeam(name: string, description: string, code: string, teamAccepted: bool, memberAccepted: bool)
      returns (outcome: Outcome)
      requires Valid()
      modifies this`teams, this`members, this`nextTeamId, this`loading, this`newTeamName, this`newTeamDescription
      ensures Valid() && !loading
      ensures outcome == InsertOutcome(old(teams), code, teamAccepted, memberAccepted)
      ensures teams == (if outcome.TeamRowInserted()
        then old(teams) + [Team(old(nextTeamId), name, description, user, code)]
        else old(teams))
      ensures nextTeamId == (if outcome.TeamRowInserted() then old(nextTeamId) + 1 else old(nextTeamId))
      ensures members == (if outcome == Done then old(members) + [Membership(old(nextTeamId), user, Owner)] else old(members))
      ensures newTeamName == (if outcome == Done then [] else old(newTeamName))
      ensures newTeamDescription == (if outcome == Done then [] else old(newTeamDescription))
    {
      loading := true;
      outcome := InsertTeamWithOwner(name, description, code, teamAccepted, memberAccepted);
      if outcome == Done {
        newTeamName := [];
        newTeamDescription := [];
      }
      loading := false;
    }

    /**
     * `createTeam`: nothing on a blank name; otherwise the team with the
     * trimmed name and description and its owner's membership.
     */
    method CreateTeam(code: string, teamAccepted: bool, memberAccepted: bool) returns (outcome: Outcome)
      requires Valid()
      modifies this`teams, this`members, this`nextTeamId, this`loading, this`newTeamName, this`newTeamDescription
      ensures Valid()
      ensures outcome == CreateOutcome(old(teams), old(newTeamName), code, teamAccepted, memberAccepted)
      ensures outcome == Ignored ==> loading == old(loading)
      ensures outcome != Ignored ==> !loading
      ensures teams == (if outcome.TeamRowInserted()
        then old(teams) + [Team(old(nextTeamId), Trim(old(newTeamName)), Trim(old(newTeamDescription)), user, code)]
        else old(teams))
      ensures nextTeamId == (if outcome.TeamRowInserted() then old(nextTeamId) + 1 else old(nextTeamId))
      ensures members == (if outcome == Done then old(members) + [Membership(old(nextTeamId), user, Owner)] else old(members))
      ensures newTeamName == (if outcome == Done then [] else old(newTeamName))
      ensures newTeamDescription == (if outcome == Done then [] else old(newTeamDescription))
    {
      var name := Trim(newTeamName);
      TrimBlank(newTeamName);
      if name == [] {
        return Ignored;
      }
      outcome := SubmitTeam(name, Trim(newTeamDescription), code, teamAccepted, memberAccepted);
    }

    /**
     * The look-ups and the insert of `joinTeam` for a trimmed code: the team
     * with that code, the check for an existing membership, then the member
     * row.
     */
    method InsertJoin(code: string, codeQueryOk: bool, checkQueryOk: bool, memberAccepted: bool) returns (outcome: Outcome)
      requires loading && Valid()
      modifies this`members
      ensures Valid()
      ensures outcome == LookupOutcome(teams, old(members), user, code, codeQueryOk, checkQueryOk, memberAccepted)
      ensures members == (if outcome == Done
        then old(members) + [Membership(TeamByCode(teams, code).value.id, user, Member)]
        else old(members))
    {
      if !codeQueryOk {
        return Failed(InvalidInviteCode);
      }
      var found := TeamByCode(teams, code);
      if found.None? {
        return Failed(InvalidInviteCode);
      }
      var team := found.value;
      if checkQueryOk {
        var existing := MembershipRows(members, team.id, user);
        ExistingRowIsMembership(teams, members, nextTeamId, team.id, user);
        if |existing| == 1 {
          return Failed(AlreadyMember);
        }
      }
      var memberOk := InsertMember(Membership(team.id, user, Member), memberAccepted);
      if !memberOk {
        return Failed(MemberInsertFailed);
      }
      return Done;
    }

    /**
     * `joinTeam`: nothing on a blank code; otherwise, while `loading` is set,
     * the look-ups and the insert for the trimmed code, and the code field
     * cleared on success.
     */
    method JoinTeam(codeQueryOk: bool, checkQueryOk: bool, memberAccepted: bool) returns (outcome: Outcome)
      requires Valid()
      modifies this`members, this`loading, this`inviteCode
      ensures Valid()
      ensures outcome == JoinOutcome(old(teams), old(members), user, old(inviteCode), codeQueryOk, checkQueryOk, memberAccepted)
      ensures outcome == Ignored ==> loading == old(loading)
      ensures outcome != Ignored ==> !loading
      ensures members == (if outcome == Done
        then old(members) + [Membership(TeamByCode(old(teams), Trim(old(inviteCode))).value.id, user, Member)]
        else old(members))
      ensures inviteCode == (if outcome == Done then [] else old(inviteCode))
    {
      var code := Trim(inviteCode);
      TrimBlank(inviteCode);
      if code == [] {
        return Ignored;
      }
      loading := true;
      outcome := InsertJoin(code, codeQueryOk, checkQueryOk, memberAccepted);
      if outcome == Done {
        inviteCode := [];
      }
      loading := false;
    }
  }

  /** A successful join raises that team's member count by one and no other team's. */
  lemma JoinAddsOneMember(members: seq<Membership>, teamId: TeamId, userId: string, other: TeamId)
    ensures MemberCount(members + [Membership(teamId, userId, Member)], teamId) == MemberCount(members, teamId) + 1
    ensures other != teamId ==>
      MemberCount(members + [Membership(teamId, userId, Member)], other) == MemberCount(members, other)
  {
    MemberCountAppend(members, Membership(teamId, userId, Member), teamId);
    MemberCountAppend(members, Membership(teamId, userId, Member), other);
  }
}
