// Nickname reconciliation: the startup pass over the guild roster and the
// role-change handler. Each handler plans nickname edits against one member
// snapshot and attempts every planned edit in order; the platform's answer to
// each edit call is a parameter, and a failed call never stops the next one.

module Nicknames {
  import opened Text
  import opened Roles

  datatype Option<T> = None | Some(value: T)

  type MemberId = nat

  /** A member snapshot: base user name, nickname override (possibly empty) and role names. */
  datatype Member = Member(id: MemberId, name: string, nick: Option<string>, roles: seq<RoleName>)

  /** One call of `member.edit(nick=newNick)`. */
  datatype EditRequest = EditRequest(target: MemberId, newNick: string)

  /** The platform's answer to an edit call; a permission error and any other error are both `Failed`. */
  datatype Outcome = Applied | Failed

  datatype Attempt = Attempt(request: EditRequest, outcome: Outcome)

  /** `member.nick if member.nick else member.name`: an empty nickname counts as unset. */
  function DisplayName(m: Member): (d: string)
    ensures d == m.name || (m.nick == Some(d) && d != "")
    ensures m.nick.Some? && m.nick.value != "" ==> d == m.nick.value
  {
    if m.nick.Some? && m.nick.value != "" then m.nick.value else m.name
  }

  /**
   * `f"{tag} {name}"` for the tag of alliance role `r`: the tag, one space,
   * then the base name, which can be read back from the result.
   */
  function TaggedNick(r: RoleName, name: string): (nick: string)
    requires r in AllianceTags
    ensures StartsWith(nick, AllianceTags[r])
    ensures |nick| == |AllianceTags[r]| + 1 + |name|
    ensures nick[|AllianceTags[r]|] == ' ' && nick[|AllianceTags[r]| + 1..] == name
  {
    AllianceTags[r] + " " + name
  }

  /** `r` is an alliance role whose tag does not begin the display name. */
  predicate NeedsTag(display: string, r: RoleName)
  {
    r in AllianceTags && !StartsWith(display, AllianceTags[r])
  }

  /** `r` is an alliance role whose tag begins the display name. */
  predicate CarriesTag(display: string, r: RoleName)
  {
    r in AllianceTags && StartsWith(display, AllianceTags[r])
  }

  /**
   * The prepend edits planned while visiting `roles` in order, every check made
   * against the same display name: one edit per alliance role whose tag the
   * display name lacks, always built from the base name.
   */
  function TagPlan(target: MemberId, display: string, name: string, roles: seq<RoleName>): (plan: seq<EditRequest>)
    ensures |plan| <= |roles|
  {
    if roles == [] then []
    else
      var r := roles[|roles| - 1];
      TagPlan(target, display, name, roles[..|roles| - 1])
        + (if NeedsTag(display, r) then [EditRequest(target, TaggedNick(r, name))] else [])
  }

  /**
   * The reset edits planned while visiting removed `roles` in order: one edit
   * back to the bare name per alliance role whose tag begins the display name.
   */
  function UntagPlan(target: MemberId, display: string, name: string, roles: seq<RoleName>): (plan: seq<EditRequest>)
    ensures |plan| <= |roles|
  {
    if roles == [] then []
    else
      var r := roles[|roles| - 1];
      UntagPlan(target, display, name, roles[..|roles| - 1])
        + (if CarriesTag(display, r) then [EditRequest(target, name)] else [])
  }

  /** The startup edits for one member: its roles visited against its own display name. */
  function MemberPlan(m: Member): (plan: seq<EditRequest>)
    ensures |plan| <= |m.roles|
  {
    TagPlan(m.id, DisplayName(m), m.name, m.roles)
  }

  /** The startup edits for a roster: each member's edits, member after member. */
  function ReadyPlan(members: seq<Member>): seq<EditRequest>
  {
    if members == [] then []
    else ReadyPlan(members[..|members| - 1]) + MemberPlan(members[|members| - 1])
  }

  /**
   * The edits of one role update: nothing when the role lists are equal;
   * otherwise prepend edits for the added roles, then reset edits for the
   * removed roles, all decided against the unrefreshed `after` snapshot.
   */
  function UpdatePlan(before: Member, after: Member): (plan: seq<EditRequest>)
    ensures before.roles == after.roles ==> plan == []
    ensures |plan| <= |after.roles| + |before.roles|
  {
    if before.roles == after.roles then []
    else
      var display := DisplayName(after);
      TagPlan(after.id, display, after.name, RoleDiff(after.roles, before.roles))
        + UntagPlan(after.id, display, after.name, RoleDiff(before.roles, after.roles))
  }

  /** `log` holds exactly the requests of `plan`, one attempt each, in order. */
  predicate Attempts(log: seq<Attempt>, plan: seq<EditRequest>)
  {
    |log| == |plan| && forall k :: 0 <= k < |log| ==> log[k].request == plan[k]
  }

  /** The member as the platform holds it after `log`: every applied edit of it sets its nickname. */
  function ApplyLog(m: Member, log: seq<Attempt>): (r: Member)
    ensures r.id == m.id && r.name == m.name && r.roles == m.roles
    decreases |log|
  {
    if log == [] then m
    else
      var a := log[0];
      var m' := if a.outcome == Applied && a.request.target == m.id then m.(nick := Some(a.request.newNick)) else m;
      ApplyLog(m', log[1..])
  }

  /** The k-th attempt of `log` carries the platform's answer to call `start + k`. */
  predicate Answered(log: seq<Attempt>, respond: nat -> Outcome, start: nat)
  {
    forall k :: 0 <= k < |log| ==> log[k].outcome == respond(start + k)
  }

  lemma AnsweredConcat(log1: seq<Attempt>, log2: seq<Attempt>, respond: nat -> Outcome, start: nat)
    requires Answered(log1, respond, start) && Answered(log2, respond, start + |log1|)
    ensures Answered(log1 + log2, respond, start)
  {
    forall k | 0 <= k < |log1 + log2|
      ensures (log1 + log2)[k].outcome == respond(start + k)
    {
      if k >= |log1| {
        assert (log1 + log2)[k] == log2[k - |log1|];
      }
    }
  }

  lemma AttemptsConcat(log1: seq<Attempt>, plan1: seq<EditRequest>, log2: seq<Attempt>, plan2: seq<EditRequest>)
    requires Attempts(log1, plan1) && Attempts(log2, plan2)
    ensures Attempts(log1 + log2, plan1 + plan2)
  {
  }

  lemma ReadyPlanStep(members: seq<Member>, m: nat)
    requires m < |members|
    ensures ReadyPlan(members[..m + 1]) == ReadyPlan(members[..m]) + MemberPlan(members[m])
  {
    assert members[..m + 1][..m] == members[..m];
  }

  lemma TagPlanStep(target: MemberId, display: string, name: string, roles: seq<RoleName>, i: nat)
    requires i < |roles|
    ensures TagPlan(target, display, name, roles[..i + 1]) ==
            TagPlan(target, display, name, roles[..i])
              + (if NeedsTag(display, roles[i]) then [EditRequest(target, TaggedNick(roles[i], name))] else [])
  {
    assert roles[..i + 1][..i] == roles[..i];
  }

  lemma UntagPlanStep(target: MemberId, display: string, name: string, roles: seq<RoleName>, i: nat)
    requires i < |roles|
    ensures UntagPlan(target, display, name, roles[..i + 1]) ==
            UntagPlan(target, display, name, roles[..i])
              + (if CarriesTag(display, roles[i]) then [EditRequest(target, name)] else [])
  {
    assert roles[..i + 1][..i] == roles[..i];
  }

  /**
   * The loop over `roles` that prepends tags (bot.py's loop in `on_ready` and
   * the added-role loop of `on_member_update`): each alliance role whose tag
   * the member's display name lacks gets an edit to the tagged base name. The
   * display name is read from the same snapshot on every iteration. The i-th
   * call made here is answered by `respond(start + i)`.
   */
  method PrependTags(member: Member, roles: seq<RoleName>, respond: nat -> Outcome, start: nat) returns (log: seq<Attempt>)
    ensures Attempts(log, TagPlan(member.id, DisplayName(member), member.name, roles))
    ensures Answered(log, respond, start)
  {
    log := [];
    var i := 0;
    while i < |roles|
      invariant 0 <= i <= |roles|
      invariant Attempts(log, TagPlan(member.id, DisplayName(member), member.name, roles[..i]))
      invariant Answered(log, respond, start)
    {
      TagPlanStep(member.id, DisplayName(member), member.name, roles, i);
      var role := roles[i];
      if role in AllianceTags {
        var tag := AllianceTags[role];
        var currentNick := DisplayName(member);
        if !StartsWith(currentNick, tag) {
          var newNick := tag + " " + member.name;
          log := log + [Attempt(EditRequest(member.id, newNick), respond(start + |log|))];
        }
      }
      i := i + 1;
    }
    assert roles[..|roles|] == roles;
  }

  /**
   * The loop over removed `roles` of `on_member_update`: each alliance role
   * whose tag begins the member's display name gets an edit back to the bare
   * base name. The i-th call made here is answered by `respond(start + i)`.
   */
  method StripTags(member: Member, roles: seq<RoleName>, respond: nat -> Outcome, start: nat) returns (log: seq<Attempt>)
    ensures Attempts(log, UntagPlan(member.id, DisplayName(member), member.name, roles))
    ensures Answered(log, respond, start)
  {
    log := [];
    var i := 0;
    while i < |roles|
      invariant 0 <= i <= |roles|
      invariant Attempts(log, UntagPlan(member.id, DisplayName(member), member.name, roles[..i]))
      invariant Answered(log, respond, start)
    {
      UntagPlanStep(member.id, DisplayName(member), member.name, roles, i);
      var role := roles[i];
      if role in AllianceTags {
        var tag := AllianceTags[role];
        var currentNick := DisplayName(member);
        if StartsWith(currentNick, tag) {
          var newNick := member.name;
          log := log + [Attempt(EditRequest(member.id, newNick), respond(start + |log|))];
        }
      }
      i := i + 1;
    }
    assert roles[..|roles|] == roles;
  }

  /**
   * `on_ready`: every member of the guild, in roster order, goes through the
   * tag-prepending loop over its roles. The k-th edit call gets the platform's
   * answer `respond(k)`, and every planned edit is attempted whatever the
   * earlier answers were.
   */
  method OnReady(members: seq<Member>, respond: nat -> Outcome) returns (log: seq<Attempt>)
    ensures Attempts(log, ReadyPlan(members))
    ensures Answered(log, respond, 0)
  {
    log := [];
    var m := 0;
    while m < |members|
      invariant 0 <= m <= |members|
      invariant Attempts(log, ReadyPlan(members[..m]))
      invariant Answered(log, respond, 0)
    {
      var edits := PrependTags(members[m], members[m].roles, respond, |log|);
      AttemptsConcat(log, ReadyPlan(members[..m]), edits, MemberPlan(members[m]));
      ReadyPlanStep(members, m);
      AnsweredConcat(log, edits, respond, 0);
      log := log + edits;
      m := m + 1;
    }
    assert members[..|members|] == members;
  }

  /**
   * `on_member_update`: when the role lists differ, the tag-prepending loop
   * over the added roles, then the tag-stripping loop over the removed roles,
   * both reading the same `after` snapshot. Every planned edit is attempted.
   */
  method OnMemberUpdate(before: Member, after: Member, respond: nat -> Outcome) returns (log: seq<Attempt>)
    ensures Attempts(log, UpdatePlan(before, after))
    ensures Answered(log, respond, 0)
  {
    log := [];
    if before.roles != after.roles {
      var added := RoleDiff(after.roles, before.roles);
      var removed := RoleDiff(before.roles, after.roles);
      var tagged := PrependTags(after, added, respond, 0);
      var stripped := StripTags(after, removed, respond, |tagged|);
      AttemptsConcat(tagged, TagPlan(after.id, DisplayName(after), after.name, added),
                     stripped, UntagPlan(after.id, DisplayName(after), after.name, removed));
      AnsweredConcat(tagged, stripped, respond, 0);
      log := tagged + stripped;
    }
  }
}
