// What the nickname plans promise: which edits they hold, the order of the
// role-change edits, what the member ends up with once the platform has
// applied them, and where re-running the startup pass is (and is not) a no-op.

module NicknameProperties {
  import opened Text
  import opened Roles
  import opened Nicknames

  /** Two tagged nicknames of one base name are equal only for the same role. */
  lemma TaggedNickInjective(r1: RoleName, r2: RoleName, name: string)
    requires r1 in AllianceTags && r2 in AllianceTags
    requires TaggedNick(r1, name) == TaggedNick(r2, name)
    ensures r1 == r2
  {
    TagsDistinct(r1, r2);
    TagsDistinct(r2, r1);
    assert AllianceTags[r1] == TaggedNick(r1, name)[..5] == TaggedNick(r2, name)[..5] == AllianceTags[r2];
  }

  /**
   * The prepend plan holds exactly the edits of this member to `"{tag} {name}"`
   * for an alliance role in `roles` whose tag the display name lacks.
   */
  lemma {:induction false} TagPlanContents(target: MemberId, display: string, name: string, roles: seq<RoleName>)
    ensures forall e :: e in TagPlan(target, display, name, roles) <==>
              e.target == target &&
              exists r :: r in roles && NeedsTag(display, r) && e.newNick == TaggedNick(r, name)
  {
    if roles != [] {
      var init := roles[..|roles| - 1];
      TagPlanContents(target, display, name, init);
      assert roles == init + [roles[|roles| - 1]];
    }
  }

  /** No prepend edit is planned for a role whose tag already begins the display name. */
  lemma NoPrependWhenTagged(target: MemberId, display: string, name: string, roles: seq<RoleName>, r: RoleName)
    requires r in AllianceTags && StartsWith(display, AllianceTags[r])
    ensures EditRequest(target, TaggedNick(r, name)) !in TagPlan(target, display, name, roles)
  {
    TagPlanContents(target, display, name, roles);
    forall r' | r' in AllianceTags && TaggedNick(r, name) == TaggedNick(r', name)
      ensures !NeedsTag(display, r')
    {
      TaggedNickInjective(r, r', name);
    }
  }

  /**
   * The reset plan holds only edits of this member back to its bare name, and
   * holds one exactly when some removed alliance role's tag begins the display name.
   */
  lemma {:induction false} UntagPlanContents(target: MemberId, display: string, name: string, roles: seq<RoleName>)
    ensures forall e :: e in UntagPlan(target, display, name, roles) ==> e == EditRequest(target, name)
    ensures UntagPlan(target, display, name, roles) != [] <==> exists r :: r in roles && CarriesTag(display, r)
  {
    if roles != [] {
      var init := roles[..|roles| - 1];
      UntagPlanContents(target, display, name, init);
      assert roles == init + [roles[|roles| - 1]];
    }
  }

  /** The startup plan holds exactly the edits some member of the roster plans for itself. */
  lemma {:induction false} ReadyPlanContents(members: seq<Member>)
    ensures forall e :: e in ReadyPlan(members) <==> exists m :: m in members && e in MemberPlan(m)
  {
    if members != [] {
      var init := members[..|members| - 1];
      ReadyPlanContents(init);
      assert members == init + [members[|members| - 1]];
    }
  }

  /**
   * Startup edits, roster-wide: each one tags some member's base name with the
   * tag of one of its alliance roles that its display name lacks, and every
   * such member and role gets one.
   */
  lemma ReadyPlanEdits(members: seq<Member>)
    ensures forall e :: e in ReadyPlan(members) ==>
              exists m :: m in members && e.target == m.id &&
                exists r :: r in m.roles && NeedsTag(DisplayName(m), r) && e.newNick == TaggedNick(r, m.name)
    ensures forall m, r :: m in members && r in m.roles && NeedsTag(DisplayName(m), r) ==>
              EditRequest(m.id, TaggedNick(r, m.name)) in ReadyPlan(members)
  {
    ReadyPlanContents(members);
    forall m | m in members
      ensures forall e :: e in MemberPlan(m) <==>
                e.target == m.id &&
                exists r :: r in m.roles && NeedsTag(DisplayName(m), r) && e.newNick == TaggedNick(r, m.name)
    {
      TagPlanContents(m.id, DisplayName(m), m.name, m.roles);
    }
  }

  /** Nothing is planned when the role lists hold the same roles, in whatever order. */
  lemma UpdatePlanSameRoles(before: Member, after: Member)
    requires forall r :: r in before.roles <==> r in after.roles
    ensures UpdatePlan(before, after) == []
  {
    RoleChanges(before.roles, after.roles);
  }

  /**
   * Every edit of a role update targets the updated member and is either a
   * prepend for an added alliance role whose tag the display name lacks, or a
   * reset to the bare name for a removed alliance role whose tag it carries;
   * all prepends come before all resets. Conversely, every added alliance
   * role whose tag the display name lacks gets its prepend, and a reset is
   * planned whenever some removed alliance role's tag begins the display name.
   */
  lemma UpdatePlanShape(before: Member, after: Member)
    ensures var plan := UpdatePlan(before, after);
            var display := DisplayName(after);
            && (forall e :: e in plan ==> e.target == after.id)
            && (forall e :: e in plan ==>
                  (e.newNick == after.name &&
                   exists r :: r in before.roles && r !in after.roles && CarriesTag(display, r)) ||
                  (exists r :: r in after.roles && r !in before.roles && NeedsTag(display, r) &&
                               e.newNick == TaggedNick(r, after.name)))
            && (forall i, j :: 0 <= i < j < |plan| && plan[i].newNick == after.name ==>
                  plan[j].newNick == after.name)
    ensures forall r :: r in after.roles && r !in before.roles && NeedsTag(DisplayName(after), r) ==>
              EditRequest(after.id, TaggedNick(r, after.name)) in UpdatePlan(before, after)
    ensures (exists r :: r in before.roles && r !in after.roles && CarriesTag(DisplayName(after), r)) ==>
              EditRequest(after.id, after.name) in UpdatePlan(before, after)
  {
    if before.roles != after.roles {
      var display := DisplayName(after);
      var added, removed := RoleDiff(after.roles, before.roles), RoleDiff(before.roles, after.roles);
      var tagged := TagPlan(after.id, display, after.name, added);
      var stripped := UntagPlan(after.id, display, after.name, removed);
      RoleDiffContents(after.roles, before.roles);
      RoleDiffContents(before.roles, after.roles);
      TagPlanContents(after.id, display, after.name, added);
      UntagPlanContents(after.id, display, after.name, removed);
      var plan := tagged + stripped;
      forall e: EditRequest | e in plan
        ensures e.target == after.id
        ensures (e.newNick == after.name &&
                 exists r :: r in before.roles && r !in after.roles && CarriesTag(display, r)) ||
                (exists r :: r in after.roles && r !in before.roles && NeedsTag(display, r) &&
                             e.newNick == TaggedNick(r, after.name))
      {
        if e in stripped {
          assert stripped != [];
        }
      }
      forall e | e in tagged
        ensures e.newNick != after.name
      {
        var r :| r in added && NeedsTag(display, r) && e.newNick == TaggedNick(r, after.name);
      }
      forall i, j | 0 <= i < j < |plan| && plan[i].newNick == after.name
        ensures plan[j].newNick == after.name
      {
        assert plan[j] in stripped;
      }
      if stripped != [] {
        assert stripped[0] in plan;
      }
    }
  }

  /**
   * Swapping one alliance role for another while the nickname carries the old
   * tag: the prepend to the new tag is planned, but a reset follows it, so the
   * last nickname requested is the bare name.
   */
  lemma AllianceSwapEndsBare(before: Member, after: Member, left: RoleName, joined: RoleName)
    requires left in before.roles && left !in after.roles && CarriesTag(DisplayName(after), left)
    requires joined in after.roles && joined !in before.roles && NeedsTag(DisplayName(after), joined)
    ensures var plan := UpdatePlan(before, after);
            && plan != []
            && EditRequest(after.id, TaggedNick(joined, after.name)) in plan[..|plan| - 1]
            && plan[|plan| - 1] == EditRequest(after.id, after.name)
  {
    var display := DisplayName(after);
    var added, removed := RoleDiff(after.roles, before.roles), RoleDiff(before.roles, after.roles);
    RoleDiffContents(after.roles, before.roles);
    RoleDiffContents(before.roles, after.roles);
    var tagged := TagPlan(after.id, display, after.name, added);
    var stripped := UntagPlan(after.id, display, after.name, removed);
    TagPlanContents(after.id, display, after.name, added);
    UntagPlanContents(after.id, display, after.name, removed);
    assert stripped != [];
    assert stripped[|stripped| - 1] in stripped;
    var plan := tagged + stripped;
    assert plan == UpdatePlan(before, after);
    assert plan[..|plan| - 1] == tagged + stripped[..|stripped| - 1];
  }

  /** When the last attempt is applied, its nickname is the result. */
  lemma {:induction false} ApplyLogLast(m: Member, log: seq<Attempt>)
    requires log != [] && log[|log| - 1].outcome == Applied && log[|log| - 1].request.target == m.id
    ensures ApplyLog(m, log).nick == Some(log[|log| - 1].request.newNick)
    decreases |log|
  {
    if |log| > 1 {
      var a := log[0];
      var m' := if a.outcome == Applied && a.request.target == m.id then m.(nick := Some(a.request.newNick)) else m;
      ApplyLogLast(m', log[1..]);
    }
  }

  /** When every attempt asks for the same nickname and one of them is applied, that is the result. */
  lemma {:induction false} ApplyLogUniform(m: Member, log: seq<Attempt>, nick: string)
    requires forall k :: 0 <= k < |log| ==> log[k].request == EditRequest(m.id, nick)
    requires exists k :: 0 <= k < |log| && log[k].outcome == Applied
    ensures ApplyLog(m, log).nick == Some(nick)
    decreases |log|
  {
    var a := log[0];
    var m' := if a.outcome == Applied then m.(nick := Some(nick)) else m;
    if |log| == 1 {
    } else if exists k :: 1 <= k < |log| && log[k].outcome == Applied {
      var k :| 1 <= k < |log| && log[k].outcome == Applied;
      assert log[1..][k - 1] == log[k];
      ApplyLogUniform(m', log[1..], nick);
    } else {
      ApplyLogUnchanged(m', log[1..]);
    }
  }

  /** A log none of whose attempts is applied leaves the member as it was. */
  lemma {:induction false} ApplyLogUnchanged(m: Member, log: seq<Attempt>)
    requires forall k :: 0 <= k < |log| ==> log[k].outcome == Failed
    ensures ApplyLog(m, log) == m
    decreases |log|
  {
    if log != [] {
      ApplyLogUnchanged(m, log[1..]);
    }
  }

  /**
   * After a role update that removes an alliance role whose tag the nickname
   * carries, once the last planned edit is applied the member shows its bare name.
   */
  lemma RemovedAllianceShowsBareName(before: Member, after: Member, left: RoleName, log: seq<Attempt>)
    requires left in before.roles && left !in after.roles && CarriesTag(DisplayName(after), left)
    requires Attempts(log, UpdatePlan(before, after))
    requires log != [] ==> log[|log| - 1].outcome == Applied
    ensures DisplayName(ApplyLog(after, log)) == after.name
  {
    var display := DisplayName(after);
    var removed := RoleDiff(before.roles, after.roles);
    RoleDiffContents(before.roles, after.roles);
    var tagged := TagPlan(after.id, display, after.name, RoleDiff(after.roles, before.roles));
    var stripped := UntagPlan(after.id, display, after.name, removed);
    UntagPlanContents(after.id, display, after.name, removed);
    assert stripped != [] && stripped[|stripped| - 1] in stripped;
    var plan := tagged + stripped;
    assert plan == UpdatePlan(before, after);
    assert plan[|plan| - 1] == EditRequest(after.id, after.name);
    ApplyLogLast(after, log);
  }

  /** A member whose display name carries the tag of its only alliance role needs no startup edit. */
  lemma SingleAllianceTagged(m: Member, role: RoleName)
    requires role in AllianceTags && StartsWith(DisplayName(m), AllianceTags[role])
    requires forall r :: r in m.roles && r in AllianceTags ==> r == role
    ensures MemberPlan(m) == []
  {
    TagPlanContents(m.id, DisplayName(m), m.name, m.roles);
    NonEmptyHasHead(MemberPlan(m));
  }

  lemma NonEmptyHasHead(s: seq<EditRequest>)
    ensures s == [] || s[0] in s
  {
  }

  /**
   * Re-running the startup pass plans nothing for a member with a single
   * alliance role once its startup edits went through (at least one of them
   * applied, or none was needed).
   */
  lemma {:induction false} ReadyIdempotentSingleAlliance(m: Member, role: RoleName, log: seq<Attempt>)
    requires role in m.roles && role in AllianceTags
    requires forall r :: r in m.roles && r in AllianceTags ==> r == role
    requires Attempts(log, MemberPlan(m))
    requires log != [] ==> exists k :: 0 <= k < |log| && log[k].outcome == Applied
    ensures MemberPlan(ApplyLog(m, log)) == []
  {
    if log != [] {
      var nick := TaggedNick(role, m.name);
      TagPlanContents(m.id, DisplayName(m), m.name, m.roles);
      forall k | 0 <= k < |log|
        ensures log[k].request == EditRequest(m.id, nick)
      {
        assert MemberPlan(m)[k] in MemberPlan(m);
      }
      ApplyLogUniform(m, log, nick);
      SingleAllianceTagged(ApplyLog(m, log), role);
    }
  }

  /**
   * A member holding two different alliance roles is never settled: whatever
   * edits of its startup pass were applied, the next startup pass plans an
   * edit again, since its display name can begin with at most one of the tags.
   */
  lemma TwoAlliancesNeverSettle(m: Member, r1: RoleName, r2: RoleName, log: seq<Attempt>)
    requires r1 in m.roles && r2 in m.roles && r1 != r2
    requires r1 in AllianceTags && r2 in AllianceTags
    ensures MemberPlan(ApplyLog(m, log)) != []
  {
    var m' := ApplyLog(m, log);
    var display := DisplayName(m');
    TagsDistinct(r1, r2);
    TagsDistinct(r2, r1);
    var r := if StartsWith(display, AllianceTags[r1]) then r2 else r1;
    assert NeedsTag(display, r);
    TagPlanContents(m'.id, display, m'.name, m'.roles);
    assert EditRequest(m'.id, TaggedNick(r, m'.name)) in MemberPlan(m');
  }

  /**
   * A refused startup edit is only logged: if every edit of a member's
   * startup pass failed, the next pass plans the same prepend again.
   */
  lemma FailedEditReplans(m: Member, role: RoleName, log: seq<Attempt>)
    requires role in m.roles && NeedsTag(DisplayName(m), role)
    requires Attempts(log, MemberPlan(m))
    requires forall k :: 0 <= k < |log| ==> log[k].outcome == Failed
    ensures EditRequest(m.id, TaggedNick(role, m.name)) in MemberPlan(ApplyLog(m, log))
  {
    ApplyLogUnchanged(m, log);
    TagPlanContents(m.id, DisplayName(m), m.name, m.roles);
  }

  /**
   * A member with a single alliance role whose tag its display name lacks
   * shows `"{tag} {name}"` once any of its startup edits is applied.
   */
  lemma SingleAllianceShowsTag(m: Member, role: RoleName, log: seq<Attempt>)
    requires role in m.roles && NeedsTag(DisplayName(m), role)
    requires forall r :: r in m.roles && r in AllianceTags ==> r == role
    requires Attempts(log, MemberPlan(m))
    requires exists k :: 0 <= k < |log| && log[k].outcome == Applied
    ensures DisplayName(ApplyLog(m, log)) == TaggedNick(role, m.name)
  {
    var nick := TaggedNick(role, m.name);
    TagPlanContents(m.id, DisplayName(m), m.name, m.roles);
    forall k | 0 <= k < |log|
      ensures log[k].request == EditRequest(m.id, nick)
    {
      assert MemberPlan(m)[k] in MemberPlan(m);
    }
    ApplyLogUniform(m, log, nick);
  }
}
