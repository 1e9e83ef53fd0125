// Concrete runs of the nickname handlers on one member, "Alex".

module Scenarios {
  import opened Roles
  import opened Nicknames

  const Mob: RoleName := "\U{1F3F0}MOB"
  const Kat: RoleName := "\U{1F3F0}KAT"

  lemma TableEntries()
    ensures Mob in AllianceTags && TaggedNick(Mob, "Alex") == "[MOB] Alex"
    ensures Kat in AllianceTags && TaggedNick(Kat, "Alex") == "[KAT] Alex"
    ensures Mob != Kat
  {
    assert AllianceTags[Mob] == "[MOB]";
    assert AllianceTags[Kat] == "[KAT]";
  }

  /** Alex, with no nickname, joins MOB and then leaves it again. */
  lemma AlexJoinsAndLeavesMob()
    ensures MemberPlan(Member(1, "Alex", None, [Mob])) == [EditRequest(1, "[MOB] Alex")]
    ensures UpdatePlan(Member(1, "Alex", None, []), Member(1, "Alex", None, [Mob]))
              == [EditRequest(1, "[MOB] Alex")]
    ensures UpdatePlan(Member(1, "Alex", Some("[MOB] Alex"), [Mob]), Member(1, "Alex", Some("[MOB] Alex"), []))
              == [EditRequest(1, "Alex")]
  {
    TableEntries();
    assert NeedsTag("Alex", Mob);
    assert CarriesTag("[MOB] Alex", Mob);
    assert [Mob][..0] == [];
    assert TagPlan(1, "Alex", "Alex", [Mob]) == [EditRequest(1, "[MOB] Alex")];
    assert RoleDiff([Mob], []) == [Mob];
    assert RoleDiff([], [Mob]) == [];
    assert UntagPlan(1, "[MOB] Alex", "Alex", [Mob]) == [EditRequest(1, "Alex")];
  }

  /**
   * Alex holds MOB and KAT: the startup pass asks for both tags against the
   * same unset nickname, the later request wins, and a second startup pass
   * asks for the MOB tag again.
   */
  lemma TwoAlliancesReplanned()
    ensures var alex := Member(1, "Alex", None, [Mob, Kat]);
            var log := [Attempt(EditRequest(1, "[MOB] Alex"), Applied), Attempt(EditRequest(1, "[KAT] Alex"), Applied)];
            && Attempts(log, MemberPlan(alex))
            && ApplyLog(alex, log).nick == Some("[KAT] Alex")
            && MemberPlan(ApplyLog(alex, log)) == [EditRequest(1, "[MOB] Alex")]
  {
    TableEntries();
    var alex := Member(1, "Alex", None, [Mob, Kat]);
    assert NeedsTag("Alex", Mob) && NeedsTag("Alex", Kat);
    assert [Mob, Kat][..1] == [Mob] && [Mob][..0] == [];
    assert TagPlan(1, "Alex", "Alex", [Mob]) == [EditRequest(1, "[MOB] Alex")];
    assert TagPlan(1, "Alex", "Alex", [Mob, Kat]) == [EditRequest(1, "[MOB] Alex"), EditRequest(1, "[KAT] Alex")];
    assert MemberPlan(alex) == [EditRequest(1, "[MOB] Alex"), EditRequest(1, "[KAT] Alex")];
    var log := [Attempt(EditRequest(1, "[MOB] Alex"), Applied), Attempt(EditRequest(1, "[KAT] Alex"), Applied)];
    assert log[1..] == [Attempt(EditRequest(1, "[KAT] Alex"), Applied)] && log[1..][1..] == [];
    var alex' := ApplyLog(alex, log);
    assert alex' == alex.(nick := Some("[KAT] Alex"));
    assert "[KAT] Alex"[1] == 'K';
    assert NeedsTag("[KAT] Alex", Mob);
    assert !NeedsTag("[KAT] Alex", Kat);
    assert TagPlan(1, "[KAT] Alex", "Alex", [Mob]) == [EditRequest(1, "[MOB] Alex")];
  }

  /**
   * Alex, tagged MOB, swaps MOB for KAT in one update: the KAT tag is asked
   * for first, then the bare name, both decided against the stale MOB nickname.
   */
  lemma AlexSwapsMobForKat()
    ensures UpdatePlan(Member(1, "Alex", Some("[MOB] Alex"), [Mob]), Member(1, "Alex", Some("[MOB] Alex"), [Kat]))
              == [EditRequest(1, "[KAT] Alex"), EditRequest(1, "Alex")]
  {
    TableEntries();
    assert "[MOB] Alex"[1] == 'M';
    assert NeedsTag("[MOB] Alex", Kat);
    assert CarriesTag("[MOB] Alex", Mob);
    assert RoleDiff([Kat], [Mob]) == [Kat];
    assert RoleDiff([Mob], [Kat]) == [Mob];
    assert [Kat][..0] == [] && [Mob][..0] == [];
    assert TagPlan(1, "[MOB] Alex", "Alex", [Kat]) == [EditRequest(1, "[KAT] Alex")];
    assert UntagPlan(1, "[MOB] Alex", "Alex", [Mob]) == [EditRequest(1, "Alex")];
  }
}
