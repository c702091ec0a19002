/** Book-club membership: the `club_members` pairs and the handlers that
    add or remove them, plus club creation. Every join handler first looks
    the pair up and inserts it only when absent; every leave handler is one
    DELETE of that pair. */
module Clubs {
  import opened Store
  import opened Text

  /** The SELECT-then-INSERT every join handler runs. */
  function Insert(pairs: set<(int, int)>, club: int, member: int): (r: set<(int, int)>)
    ensures (club, member) in r
    ensures forall p :: p in r <==> p in pairs || p == (club, member)
    ensures (club, member) in pairs ==> r == pairs
  {
    if (club, member) in pairs then pairs else pairs + {(club, member)}
  }

  /** The DELETE every leave handler runs; deleting an absent pair matches
      no row. */
  function Delete(pairs: set<(int, int)>, club: int, member: int): (r: set<(int, int)>)
    ensures (club, member) !in r
    ensures forall p :: p in r <==> p in pairs && p != (club, member)
    ensures (club, member) !in pairs ==> r == pairs
  {
    pairs - {(club, member)}
  }

  /** `st'` differs from `st` in the membership pairs alone. */
  predicate OnlyMembershipChanged(st: Library, st': Library)
  {
    st' == st.(clubMembers := st'.clubMembers)
  }

  /** `MainWindow.join_club`: refused without a member record, otherwise
      the pair (club, member id) is inserted if absent. */
  function JoinClub(st: Library, memberId: Option<int>, club: int): (r: Result<Library>)
    ensures memberId.None? <==> r == Err(MemberRecordNotFound)
    ensures r.Ok? <==> memberId.Some?
    ensures r.Ok? ==> && OnlyMembershipChanged(st, r.value)
                      && r.value.clubMembers == st.clubMembers + {(club, memberId.value)}
  {
    match memberId
    case None => Err(MemberRecordNotFound)
    case Some(m) => Ok(st.(clubMembers := Insert(st.clubMembers, club, m)))
  }

  /** `MainWindow.leave_club`: refused without a member record, otherwise
      the pair (club, member id) is deleted. */
  function LeaveClub(st: Library, memberId: Option<int>, club: int): (r: Result<Library>)
    ensures memberId.None? <==> r == Err(MemberRecordNotFound)
    ensures r.Ok? <==> memberId.Some?
    ensures r.Ok? ==> && OnlyMembershipChanged(st, r.value)
                      && r.value.clubMembers == st.clubMembers - {(club, memberId.value)}
  {
    match memberId
    case None => Err(MemberRecordNotFound)
    case Some(m) => Ok(st.(clubMembers := Delete(st.clubMembers, club, m)))
  }

  /** `MainWindow.assign_member_to_club`: the librarian types both ids; no
      member record is looked up. */
  function AssignMember(st: Library, member: int, club: int): (st': Library)
    ensures OnlyMembershipChanged(st, st')
    ensures st'.clubMembers == st.clubMembers + {(club, member)}
  {
    st.(clubMembers := Insert(st.clubMembers, club, member))
  }

  /** `MainWindow.remove_member_from_club`. */
  function RemoveMember(st: Library, member: int, club: int): (st': Library)
    ensures OnlyMembershipChanged(st, st')
    ensures st'.clubMembers == st.clubMembers - {(club, member)}
  {
    st.(clubMembers := Delete(st.clubMembers, club, member))
  }

  /** `BookClub.join_club(member_id, club_id)`. */
  function JoinByRecord(st: Library, member: int, club: int): (st': Library)
    ensures OnlyMembershipChanged(st, st')
    ensures (club, member) in st'.clubMembers
    ensures forall p :: p in st'.clubMembers && p != (club, member) <==> p in st.clubMembers && p != (club, member)
    ensures (club, member) in st.clubMembers ==> st' == st
  {
    st.(clubMembers := Insert(st.clubMembers, club, member))
  }

  /** `BookClubWindow.join_club`: the pair is keyed by the window's
      `user_id`, which is never resolved to a member id. */
  function WindowJoin(st: Library, userId: int, club: int): (st': Library)
    ensures OnlyMembershipChanged(st, st')
    ensures st'.clubMembers == st.clubMembers + {(club, userId)}
  {
    st.(clubMembers := Insert(st.clubMembers, club, userId))
  }

  /** `BookClubWindow.leave_club`, keyed by `user_id` as well. The window's
      `user_id` defaults to None, and `member_id = NULL` matches no row, so
      the DELETE then removes nothing. */
  function WindowLeave(st: Library, userId: Option<int>, club: int): (st': Library)
    ensures OnlyMembershipChanged(st, st')
    ensures userId.Some? ==> st'.clubMembers == st.clubMembers - {(club, userId.value)}
    ensures userId.None? ==> st' == st
  {
    match userId
    case None => st
    case Some(u) => st.(clubMembers := Delete(st.clubMembers, club, u))
  }

  /** The name check of the club-creation dialog: the stripped name must not
      be empty; name and description are stored stripped. */
  function CreateClub(st: Library, nameText: string, descText: string): (r: Result<Library>)
    ensures r.Err? <==> AllSpace(nameText)
    ensures r.Err? ==> r.error == ClubNameRequired
    ensures r.Ok? ==> && r.value.clubs.Keys == st.clubs.Keys + {st.nextClubId}
                      && r.value.nextClubId == st.nextClubId + 1
                      && r.value.clubs[st.nextClubId] == Club(Strip(nameText), Strip(descText))
                      && (forall c :: c in st.clubs && c != st.nextClubId ==> r.value.clubs[c] == st.clubs[c])
                      && r.value == st.(clubs := r.value.clubs, nextClubId := r.value.nextClubId)
  {
    var name := Strip(nameText);
    if name == [] then Err(ClubNameRequired)
    else Ok(st.(clubs := st.clubs[st.nextClubId := Club(name, Strip(descText))],
                nextClubId := st.nextClubId + 1))
  }

  // ---------------------------------------------------------------------
  // Properties
  // ---------------------------------------------------------------------

  /** Joining twice has the effect of joining once, on every join path. */
  lemma {:induction false} JoinIdempotent(st: Library, memberId: Option<int>, club: int)
    requires memberId.Some?
    ensures var once := JoinClub(st, memberId, club).value;
            JoinClub(once, memberId, club) == Ok(once)
  {
  }

  lemma {:induction false} JoinByRecordIdempotent(st: Library, member: int, club: int)
    ensures JoinByRecord(JoinByRecord(st, member, club), member, club) == JoinByRecord(st, member, club)
  {
  }

  /** Leaving undoes a join that added the pair, and joining undoes a leave
      that removed it. */
  lemma {:induction false} LeaveUndoesJoin(st: Library, member: int, club: int)
    requires (club, member) !in st.clubMembers
    ensures RemoveMember(AssignMember(st, member, club), member, club) == st
  {
    assert (st.clubMembers + {(club, member)}) - {(club, member)} == st.clubMembers;
  }

  /** In the main window, leaving undoes a join that added the pair. */
  lemma {:induction false} LeaveClubUndoesJoinClub(st: Library, member: int, club: int)
    requires (club, member) !in st.clubMembers
    ensures JoinClub(st, Some(member), club).Ok?
    ensures LeaveClub(JoinClub(st, Some(member), club).value, Some(member), club) == Ok(st)
  {
    assert (st.clubMembers + {(club, member)}) - {(club, member)} == st.clubMembers;
  }

  /** In the club window, leaving undoes a join that added the pair. */
  lemma {:induction false} WindowLeaveUndoesWindowJoin(st: Library, userId: int, club: int)
    requires (club, userId) !in st.clubMembers
    ensures WindowLeave(WindowJoin(st, userId, club), Some(userId), club) == st
  {
    assert (st.clubMembers + {(club, userId)}) - {(club, userId)} == st.clubMembers;
  }

  lemma {:induction false} JoinUndoesLeave(st: Library, member: int, club: int)
    requires (club, member) in st.clubMembers
    ensures AssignMember(RemoveMember(st, member, club), member, club) == st
  {
    assert (st.clubMembers - {(club, member)}) + {(club, member)} == st.clubMembers;
  }

  /** Because the club window keys the pair by user id, a member whose member
      id differs from their user id is, after joining there, still not a
      member of the club as the main window sees it. */
  lemma {:induction false} WindowJoinMissesMemberId(st: Library, userId: int, club: int)
    requires userId in st.members
    requires st.members[userId].memberId != userId
    requires (club, st.members[userId].memberId) !in st.clubMembers
    ensures (club, st.members[userId].memberId) !in WindowJoin(st, userId, club).clubMembers
    ensures (club, userId) in WindowJoin(st, userId, club).clubMembers
  {
  }

  /** A created club's name is never empty and never starts or ends with a
      space character. */
  lemma {:induction false} CreatedNameIsTrimmed(st: Library, nameText: string, descText: string)
    requires CreateClub(st, nameText, descText).Ok?
    ensures var name := CreateClub(st, nameText, descText).value.clubs[st.nextClubId].name;
            name != [] && Trimmed(name) && Strip(name) == name
  {
    StripIdempotent(nameText);
  }
}
